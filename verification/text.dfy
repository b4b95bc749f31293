/** Text handling shared by every serializer field: Django REST framework's
    CharField strips leading and trailing whitespace (Python's `str.strip()`)
    before it checks for blanks, lengths and validators. */
module Text {

  /** Python's `str.isspace()` characters. */
  predicate IsSpace(c: char)
  {
    || ('\t' <= c <= '\r')
    || ('\U{1C}' <= c <= '\U{1F}')
    || c == ' '
    || c == '\U{85}'
    || c == '\U{A0}'
    || c == '\U{1680}'
    || ('\U{2000}' <= c <= '\U{200A}')
    || c == '\U{2028}'
    || c == '\U{2029}'
    || c == '\U{202F}'
    || c == '\U{205F}'
    || c == '\U{3000}'
  }

  /** Number of whitespace characters `s` starts with. */
  function LeadingSpaces(s: string): (n: nat)
    ensures n <= |s|
    ensures forall k :: 0 <= k < n ==> IsSpace(s[k])
    ensures n < |s| ==> !IsSpace(s[n])
  {
    if s != [] && IsSpace(s[0]) then 1 + LeadingSpaces(s[1..]) else 0
  }

  /** Number of whitespace characters `s` ends with. */
  function TrailingSpaces(s: string): (n: nat)
    ensures n <= |s|
    ensures forall k :: |s| - n <= k < |s| ==> IsSpace(s[k])
    ensures n < |s| ==> !IsSpace(s[|s| - 1 - n])
  {
    if s != [] && IsSpace(s[|s| - 1]) then 1 + TrailingSpaces(s[..|s| - 1]) else 0
  }

  /** `str.strip()`: `s` without its leading and trailing whitespace. */
  function Trim(s: string): (r: string)
    ensures LeadingSpaces(s) + |r| <= |s|
    ensures r == s[LeadingSpaces(s)..LeadingSpaces(s) + |r|]
    ensures forall k :: LeadingSpaces(s) + |r| <= k < |s| ==> IsSpace(s[k])
    ensures r != [] ==> !IsSpace(r[0]) && !IsSpace(r[|r| - 1])
  {
    var t := s[LeadingSpaces(s)..];
    t[..|t| - TrailingSpaces(t)]
  }

  /** DRF treats a field as blank when nothing is left after stripping. */
  predicate IsBlank(s: string)
  {
    Trim(s) == []
  }

  /** A string is blank exactly when it is all whitespace. */
  lemma BlankIffAllSpace(s: string)
    ensures IsBlank(s) <==> forall k :: 0 <= k < |s| ==> IsSpace(s[k])
  {
    if forall k :: 0 <= k < |s| ==> IsSpace(s[k]) {
      assert LeadingSpaces(s) == |s|;
    }
  }

  /** Stripping twice strips nothing more. */
  lemma TrimIdempotent(s: string)
    ensures Trim(Trim(s)) == Trim(s)
  {
    var r := Trim(s);
    if r != [] {
      assert LeadingSpaces(r) == 0;
      assert TrailingSpaces(r) == 0;
    }
  }

  /** A value holding no whitespace at all is left as it is. */
  lemma TrimKeepsUnspaced(s: string)
    requires forall k :: 0 <= k < |s| ==> !IsSpace(s[k])
    ensures Trim(s) == s
  {
    assert LeadingSpaces(s) == 0;
  }
}
