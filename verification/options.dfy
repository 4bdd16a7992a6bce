/** Optional values: a spreadsheet cell that pandas reports as missing, a
    pattern that does not match, a label that does not parse. */
module Options {

  datatype Option<+T> = None | Some(value: T)

}
