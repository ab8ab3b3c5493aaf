/** The optional value used wherever the modelled code returns `null`, `undefined`
    or throws: a parse failure, a determinant of a non-square matrix, an identity
    matrix of order below one. */
module Options {

  datatype Option<T> = None | Some(value: T)

}
