/** An optional value: an absent cookie, a token that fails to decode, a
    missing uploaded file, a profile picture never set. */
module Maybe {

  datatype Option<+T> = None | Some(value: T)
}
