/** `BookViewMapper.map`: the names of a book's authors, as a new array. */
module BookViewMapper {
  import opened JavaLang
  import opened Books

  /** `author.getName().toString()`. */
  function AuthorName(a: Author): JString {
    a.name.text
  }

  /**
   * `map(List<Author>)`: a new array as long as the list whose entry `i`
   * is the name of author `i`. The list is a value and is only read.
   */
  method Map(authorList: seq<Author>) returns (authorNames: array<JString>)
    ensures fresh(authorNames)
    ensures authorNames.Length == |authorList|
    ensures forall i :: 0 <= i < |authorList| ==> authorNames[i] == AuthorName(authorList[i])
  {
    authorNames := new JString[|authorList|];
    for i := 0 to |authorList|
      invariant forall k :: 0 <= k < i ==> authorNames[k] == AuthorName(authorList[k])
    {
      authorNames[i] := AuthorName(authorList[i]);
    }
  }
}
