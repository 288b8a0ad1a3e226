/** Sets of ASCII characters, written out. */
module Characters {

  const DIGITS: set<char> := {'0', '1', '2', '3', '4', '5', '6', '7', '8', '9'}

  const SMALLS: set<char> := {
    'a', 'b', 'c', 'd', 'e', 'f', 'g', 'h', 'i', 'j', 'k', 'l', 'm',
    'n', 'o', 'p', 'q', 'r', 's', 't', 'u', 'v', 'w', 'x', 'y', 'z'}

  const CAPITALS: set<char> := {
    'A', 'B', 'C', 'D', 'E', 'F', 'G', 'H', 'I', 'J', 'K', 'L', 'M',
    'N', 'O', 'P', 'Q', 'R', 'S', 'T', 'U', 'V', 'W', 'X', 'Y', 'Z'}

  const HEX: set<char> := DIGITS + {'a', 'b', 'c', 'd', 'e', 'f', 'A', 'B', 'C', 'D', 'E', 'F'}

  /** The token characters of section 3.2.6 of RFC 7230. */
  const TOKENS: set<char> := DIGITS + SMALLS + CAPITALS +
    {'!', '#', '$', '%', '&', '\'', '*', '+', '-', '.', '^', '_', '`', '|', '~'}

  lemma DigitIs(c: char)
    ensures '0' <= c <= '9' <==> c in DIGITS
  {
    assert c == (c as int) as char;
  }

  lemma SmallIs(c: char)
    ensures 'a' <= c <= 'z' <==> c in SMALLS
  {
    assert c == (c as int) as char;
  }

  lemma CapitalIs(c: char)
    ensures 'A' <= c <= 'Z' <==> c in CAPITALS
  {
    assert c == (c as int) as char;
  }

  lemma HexIs(c: char)
    ensures '0' <= c <= '9' || 'a' <= c <= 'f' || 'A' <= c <= 'F' <==> c in HEX
  {
    assert c == (c as int) as char;
  }
}
