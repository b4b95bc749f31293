/** The username validator of users/validators.py: it searches the value for
    runs of characters outside the class `[\w.@+-]` and raises a validation
    error when it finds any. */
module Validators {
  import opened Outcomes
  import opened Seqs

  /** `\w`, restricted to ASCII letters, digits and underscore. */
  predicate IsWordChar(c: char)
  {
    ('a' <= c <= 'z') || ('A' <= c <= 'Z') || ('0' <= c <= '9') || c == '_'
  }

  /** The character class `[\w.@+-]`. */
  predicate IsUsernameChar(c: char)
  {
    IsWordChar(c) || c == '.' || c == '@' || c == '+' || c == '-'
  }

  /** The negated class `[^\w.@+-]`. */
  predicate IsForbidden(c: char)
  {
    !IsUsernameChar(c)
  }

  /** Every character of `s` is allowed in a username. */
  predicate AllUsernameChars(s: string)
  {
    forall i :: 0 <= i < |s| ==> IsUsernameChar(s[i])
  }

  function Concat(runs: seq<string>): string
  {
    if runs == [] then [] else runs[0] + Concat(runs[1..])
  }

  /** Length of the longest prefix of `s` made of forbidden characters. */
  function ForbiddenPrefix(s: string): (n: nat)
    ensures n <= |s|
    ensures forall k :: 0 <= k < n ==> IsForbidden(s[k])
    ensures n < |s| ==> IsUsernameChar(s[n])
  {
    if s != [] && IsForbidden(s[0]) then 1 + ForbiddenPrefix(s[1..]) else 0
  }

  /** A non-empty string of forbidden characters. */
  predicate IsRun(r: string)
  {
    r != [] && forall k :: 0 <= k < |r| ==> IsForbidden(r[k])
  }

  /** `re.findall(r'[^\w.@+-]+', s)`: the maximal runs of forbidden
      characters, left to right. Together they hold exactly the forbidden
      characters of `s`, in order. */
  function ForbiddenRuns(s: string): (runs: seq<string>)
    ensures forall i :: 0 <= i < |runs| ==> IsRun(runs[i])
    ensures Concat(runs) == Filter(IsForbidden, s)
    decreases |s|
  {
    if s == [] then []
    else if IsUsernameChar(s[0]) then ForbiddenRuns(s[1..])
    else
      var n := ForbiddenPrefix(s);
      var rest := ForbiddenRuns(s[n..]);
      RunThenRest(s, n, rest);
      [s[..n]] + rest
  }

  /** The step of `ForbiddenRuns` that splits off a leading run. */
  lemma RunThenRest(s: string, n: nat, rest: seq<string>)
    requires 0 < n == ForbiddenPrefix(s)
    requires Concat(rest) == Filter(IsForbidden, s[n..])
    ensures Concat([s[..n]] + rest) == Filter(IsForbidden, s)
  {
    var runs := [s[..n]] + rest;
    assert runs[0] == s[..n] && runs[1..] == rest;
    assert s[..n] + s[n..] == s;
    FilterAppend(IsForbidden, s[..n], s[n..]);
    FilterAll(IsForbidden, s[..n]);
    calc {
      Concat(runs);
      s[..n] + Concat(rest);
      Filter(IsForbidden, s[..n]) + Filter(IsForbidden, s[n..]);
    }
  }

  /** No run is found exactly when every character is allowed. */
  lemma NoRunsIffAllAllowed(s: string)
    ensures ForbiddenRuns(s) == [] <==> AllUsernameChars(s)
  {
    var runs := ForbiddenRuns(s);
    if runs == [] {
      assert Filter(IsForbidden, s) == [];
      forall i | 0 <= i < |s|
        ensures IsUsernameChar(s[i])
      {
        assert s[i] in s;
      }
    } else {
      assert Concat(runs) == runs[0] + Concat(runs[1..]);
      assert Concat(runs)[0] in Filter(IsForbidden, s);
    }
  }

  /** `validate_username`: passes, leaving the value as it is, exactly when
      the value contains no forbidden character. */
  function ValidateUsername(value: string): (o: Outcome)
    ensures o.Pass? <==> AllUsernameChars(value)
    ensures o.Fail? ==> o.error == Validation(UsernameCharacters)
  {
    NoRunsIffAllAllowed(value);
    if ForbiddenRuns(value) != [] then Fail(Validation(UsernameCharacters)) else Pass
  }

  lemma EmptyUsernamePasses()
    ensures ValidateUsername("").Pass?
  {
  }

  /** Acceptance is decided per character: it is closed under concatenation. */
  lemma ConcatenationPasses(a: string, b: string)
    requires ValidateUsername(a).Pass? && ValidateUsername(b).Pass?
    ensures ValidateUsername(a + b).Pass?
  {
    assert forall i :: 0 <= i < |a + b| ==> (a + b)[i] == if i < |a| then a[i] else b[i - |a|];
  }

  /** ... and under taking substrings. */
  lemma SubstringPasses(s: string, i: nat, j: nat)
    requires i <= j <= |s|
    requires ValidateUsername(s).Pass?
    ensures ValidateUsername(s[i..j]).Pass?
  {
    assert forall k :: 0 <= k < j - i ==> s[i..j][k] == s[i + k];
  }
}
