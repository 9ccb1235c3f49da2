/**
 * An optional value: stands for a JavaScript `null`-able argument and for a
 * declaration chunk that the style filter may drop.
 */
module Optional {

  datatype Option<+T> = None | Some(value: T)

}
