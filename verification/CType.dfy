/** Character classes of the "C" locale. */
module CType {

  predicate IsSpace(c: char) {
    c == ' ' || '\t' <= c <= '\r'
  }

  predicate AllSpaces(s: string) {
    forall m :: 0 <= m < |s| ==> s[m] as int in {32, 9, 10, 11, 12, 13}
  }

  /** Blank, tab, line feed, vertical tab, form feed and carriage return. */
  lemma SpacesAre(c: char)
    ensures IsSpace(c) <==> c as int in {32, 9, 10, 11, 12, 13}
  {
  }
}
