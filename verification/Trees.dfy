/** JSON-like values: text leaves of type `S`, other scalars of type `A`, lists and string-keyed dictionaries. */
module Trees {
  datatype Tree<S, A> =
    | Text(text: S)
    | Scalar(atom: A)
    | List(items: seq<Tree<S, A>>)
    | Dict(fields: map<string, Tree<S, A>>)
}
