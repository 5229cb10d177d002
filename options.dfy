/** The nullable references of the game (`null` bodies in the alien grid, the
    not-yet-computed boundary and bottom aliens) are modelled as `Option`. */
module Options {

  datatype Option<+T> = None | Some(value: T)
}
