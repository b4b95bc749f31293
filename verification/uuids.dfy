/** The confirmation code of a user is a UUID (users/models.py). The token
    endpoint compares the submitted code with `str(code)`, Python's canonical
    text form of a UUID: 32 lower-case hexadecimal digits grouped 8-4-4-4-12
    and joined by dashes. The code itself is an opaque 128-bit value, written
    here as 32 nibbles; which value is drawn is left to the caller. */
module Uuids {
  import opened Outcomes

  newtype Nibble = n: int | 0 <= n < 16

  type Uuid = s: seq<Nibble> | |s| == 32 witness seq(32, _ => 0 as Nibble)

  const HEX_DIGITS: string := "0123456789abcdef"
  const TEXT_LENGTH: int := 36

  function HexChar(n: Nibble): char
  {
    HEX_DIGITS[n]
  }

  /** The nibble a lower-case hexadecimal digit stands for. */
  function HexValue(c: char): (r: Option<Nibble>)
    ensures r.Some? ==> HexChar(r.value) == c
  {
    if '0' <= c <= '9' then Some((c as int - '0' as int) as Nibble)
    else if 'a' <= c <= 'f' then Some((c as int - 'a' as int + 10) as Nibble)
    else None
  }

  lemma HexValueOfHexChar(n: Nibble)
    ensures HexValue(HexChar(n)) == Some(n)
  {
  }

  /** Positions of the four dashes in the 8-4-4-4-12 layout. */
  predicate IsDash(i: int)
  {
    i == 8 || i == 13 || i == 18 || i == 23
  }

  /** Where the `k`-th nibble is written in the text. */
  function CharIndex(k: int): (i: int)
    requires 0 <= k < 32
    ensures 0 <= i < TEXT_LENGTH && !IsDash(i)
  {
    k + (if k >= 8 then 1 else 0) + (if k >= 12 then 1 else 0)
      + (if k >= 16 then 1 else 0) + (if k >= 20 then 1 else 0)
  }

  /** Which nibble the (non-dash) character at `i` of the text shows. */
  function NibbleIndex(i: int): (k: int)
    requires 0 <= i < TEXT_LENGTH && !IsDash(i)
    ensures 0 <= k < 32 && CharIndex(k) == i
  {
    i - (if i > 8 then 1 else 0) - (if i > 13 then 1 else 0)
      - (if i > 18 then 1 else 0) - (if i > 23 then 1 else 0)
  }

  /** `str(uuid)`: the canonical text form. */
  function UuidText(u: Uuid): (t: string)
    ensures |t| == TEXT_LENGTH
    ensures forall i :: 0 <= i < TEXT_LENGTH && IsDash(i) ==> t[i] == '-'
  {
    seq(TEXT_LENGTH, i requires 0 <= i < TEXT_LENGTH =>
      if IsDash(i) then '-' else HexChar(u[NibbleIndex(i)]))
  }

  /** `t` has the shape of a canonical UUID text. */
  predicate WellFormed(t: string)
  {
    && |t| == TEXT_LENGTH
    && forall i :: 0 <= i < TEXT_LENGTH ==>
         if IsDash(i) then t[i] == '-' else HexValue(t[i]).Some?
  }

  /** The UUID whose canonical text is `t`, if there is one. */
  function ParseUuidText(t: string): (r: Option<Uuid>)
    ensures r.Some? <==> WellFormed(t)
  {
    if WellFormed(t) then
      Some(seq(32, k requires 0 <= k < 32 => HexValue(t[CharIndex(k)]).value))
    else None
  }

  /** Parsing the canonical text gives back the UUID. */
  lemma ParseOfText(u: Uuid)
    ensures ParseUuidText(UuidText(u)) == Some(u)
  {
    var t := UuidText(u);
    forall i | 0 <= i < TEXT_LENGTH && !IsDash(i)
      ensures HexValue(t[i]).Some?
    {
      HexValueOfHexChar(u[NibbleIndex(i)]);
    }
    assert WellFormed(t);
    var v := ParseUuidText(t).value;
    forall k | 0 <= k < 32
      ensures v[k] == u[k]
    {
      var i := CharIndex(k);
      assert NibbleIndex(i) == k;
      HexValueOfHexChar(u[k]);
    }
    assert v == u;
  }

  /** A text that parses is the canonical text of what it parses to. */
  lemma TextOfParse(t: string, u: Uuid)
    requires ParseUuidText(t) == Some(u)
    ensures UuidText(u) == t
  {
    var s := UuidText(u);
    forall i | 0 <= i < TEXT_LENGTH
      ensures s[i] == t[i]
    {
      if !IsDash(i) {
        var k := NibbleIndex(i);
        assert u[k] == HexValue(t[CharIndex(k)]).value;
      }
    }
  }

  /** Comparing a submitted string with `str(code)` is the same as parsing
      the string and comparing UUIDs. */
  lemma TextMatchIffParse(t: string, u: Uuid)
    ensures t == UuidText(u) <==> ParseUuidText(t) == Some(u)
  {
    ParseOfText(u);
    if ParseUuidText(t) == Some(u) {
      TextOfParse(t, u);
    }
  }

  /** Distinct codes have distinct texts. */
  lemma TextInjective(u: Uuid, v: Uuid)
    requires UuidText(u) == UuidText(v)
    ensures u == v
  {
    ParseOfText(u);
    ParseOfText(v);
  }
}
