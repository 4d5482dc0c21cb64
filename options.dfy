/** An optional value: `None` stands for JavaScript's `undefined` / `null`
    results (a missing map key, an array index out of range, a failed `find`). */
module Options {

  datatype Option<+T> = None | Some(value: T)
}
