/** The records the services exchange over HTTP and AMQP: every field is
    optional, as in the shared schema module. */
module Schema {
  import opened Common

  /** A book on the wire; the id travels as text. */
  datatype BookDto = BookDto(
    name: Option<string>,
    description: Option<string>,
    genre: Option<string>,
    author: Option<string>,
    price: Option<Int32>,
    rating: Option<Int32>,
    id: Option<string>)

  /** A member on the wire: the book map goes from book name to asking
      price; `memberSince` is a clock reading. */
  datatype MemberDto = MemberDto(
    username: Option<string>,
    books: Option<map<string, Int32>>,
    id: Option<string>,
    memberSince: Option<int>)

  /** A listing on the wire. The store's converter and its POST check also
      use an id (as text) and a creation stamp, so the record carries them. */
  datatype BookForSaleDto = BookForSaleDto(
    name: Option<string>,
    soldBy: Option<string>,
    price: Option<Int32>,
    id: Option<string>,
    createdOn: Option<int>)
}
