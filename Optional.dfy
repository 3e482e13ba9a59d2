/** The nullable values of the component (`timeLeft`, a missing entry of `answers`). */
module Optional {

  datatype Option<+T> = None | Some(value: T)
}
