/** The characters which are white space or syntax in message patterns; the tables are written as ranges. */
module PatternProps {
  import opened Utf16
  import opened MessageSyntax

  predicate IsWhiteSpace(c: Unit) {
    if c <= 0xff then 0x09 <= c <= 0x0d || c == 0x20 || c == 0x85
    else 0x200e <= c <= 0x2029 && (c <= 0x200f || 0x2028 <= c)
  }

  predicate IsSyntax(c: Unit) {
    if c <= 0xff then
      || 0x21 <= c <= 0x2f || 0x3a <= c <= 0x40 || 0x5b <= c <= 0x5e || c == 0x60 || 0x7b <= c <= 0x7e
      || 0xa1 <= c <= 0xa7 || c in {0xa9, 0xab, 0xac, 0xae, 0xb0, 0xb1, 0xb6, 0xbb, 0xbf, 0xd7, 0xf7}
    else if c < 0x2010 then false
    else if c <= 0x3030 then
      || c <= 0x2027 || 0x2030 <= c <= 0x203e || 0x2041 <= c <= 0x2053 || 0x2055 <= c <= 0x205e || 0x2190 <= c <= 0x245f
      || 0x2500 <= c <= 0x2775 || 0x2794 <= c <= 0x2bff || 0x2e00 <= c <= 0x2e7f
      || 0x3001 <= c <= 0x3003 || 0x3008 <= c <= 0x3020 || c == 0x3030
    else 0xfd3e <= c <= 0xfd3f || 0xfe45 <= c <= 0xfe46
  }

  function WhiteSpace(): set<Unit> {
    set c: Unit | IsWhiteSpace(c)
  }

  function SyntaxOrWhiteSpace(): set<Unit> {
    set c: Unit | IsSyntax(c) || IsWhiteSpace(c)
  }

  /** These sets are as the printing of trees demands. */
  lemma PatternSetting(doubleRequired: bool)
    ensures Setting(doubleRequired, WhiteSpace(), SyntaxOrWhiteSpace()).Usual()
  {
  }
}
