/** An optional value: a Java `null`-or-value, or "this step contributes
    nothing". */
module Maybe {

  datatype Option<+T> = None | Some(value: T)
}
