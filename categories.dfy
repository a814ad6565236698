/** The two categories every classifier in the system produces, and the
    strings that stand for them in records and in the remote interface. */
module Categories {

  datatype Category = Produtivo | Improdutivo

  const PRODUTIVO: string := "Produtivo"
  const IMPRODUTIVO: string := "Improdutivo"

  /** The string the source writes for a category. */
  function Name(c: Category): (r: string)
    ensures r == PRODUTIVO <==> c == Produtivo
    ensures r == IMPRODUTIVO <==> c == Improdutivo
  {
    match c
    case Produtivo => PRODUTIVO
    case Improdutivo => IMPRODUTIVO
  }
}
