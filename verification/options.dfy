/** The Some/None wrapper used for the program's error paths (a missing
    dictionary key, a predecessor chain that never reaches the start). */
module Options {

  datatype Option<+T> = None | Some(value: T)

}
