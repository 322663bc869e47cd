/** The Python `None`-or-value results of the game (winner, reward, chosen move). */
module Optional {

  datatype Option<T> = None | Some(value: T)
}
