/**
 * The scule casing helpers used to synthesize component names.
 * `pascalCase` splits a string at the separators `-`, `_`, `/`, `.` and at case changes,
 * upper-cases the first character of every piece and concatenates the pieces. A piece
 * that starts at a case change already starts with an upper-case letter, so the result
 * is: separators dropped, and the first character and every character that follows a
 * separator upper-cased. Only ASCII letters change case here.
 */
module Casing {

  predicate IsSeparator(c: char) {
    c == '-' || c == '_' || c == '/' || c == '.'
  }

  function Upper(c: char): char {
    if 'a' <= c <= 'z' then (c as int - 32) as char else c
  }

  function Lower(c: char): char {
    if 'A' <= c <= 'Z' then (c as int + 32) as char else c
  }

  predicate NoSeparators(s: string) {
    forall k :: 0 <= k < |s| ==> !IsSeparator(s[k])
  }

  /** Pascal-casing of `s`, where `capitalize` says whether a new piece starts here. */
  function PascalFrom(s: string, capitalize: bool): (r: string)
    ensures NoSeparators(r)
    ensures |r| <= |s|
    ensures capitalize && |r| > 0 ==> Upper(r[0]) == r[0]
  {
    if s == [] then []
    else if IsSeparator(s[0]) then PascalFrom(s[1..], true)
    else [if capitalize then Upper(s[0]) else s[0]] + PascalFrom(s[1..], false)
  }

  /** scule `pascalCase`. */
  function PascalCase(s: string): (r: string)
    ensures NoSeparators(r)
  {
    PascalFrom(s, true)
  }

  /** scule `camelCase`: the Pascal form with its first character lower-cased. */
  function CamelCase(s: string): (r: string)
    ensures NoSeparators(r)
    ensures |r| == |PascalCase(s)|
  {
    var p := PascalCase(s);
    if p == [] then [] else [Lower(p[0])] + p[1..]
  }

  /** Text without separators is a single piece: only its first character may change. */
  lemma {:induction false} PascalOfSinglePiece(s: string, capitalize: bool)
    requires NoSeparators(s) && s != []
    ensures PascalFrom(s, capitalize) == [if capitalize then Upper(s[0]) else s[0]] + s[1..]
    decreases |s|
  {
    if |s| > 1 {
      PascalOfSinglePiece(s[1..], false);
      assert s[1..][1..] == s[2..];
      assert [s[1]] + s[2..] == s[1..];
    } else {
      assert s[1..] == [];
    }
  }

  /** A name that does not start with a separator keeps its first character, upper-cased, in front. */
  lemma PascalHead(s: string)
    requires s != [] && !IsSeparator(s[0])
    ensures PascalCase(s) != [] && PascalCase(s)[0] == Upper(s[0])
  {
  }

  /** Lower-casing an upper-case character and upper-casing it again gives it back. */
  lemma UpperLowerUpper(c: char)
    requires Upper(c) == c
    ensures Upper(Lower(c)) == c
  {
  }

  /**
   * Pascal-casing the camel form gives the Pascal form: the resolver's
   * `pascalCase(camelCase(name))` names the same component as `pascalCase(name)`.
   */
  lemma PascalOfCamel(s: string)
    ensures PascalCase(CamelCase(s)) == PascalCase(s)
  {
    var p := PascalCase(s);
    if p != [] {
      var c := CamelCase(s);
      PascalOfSinglePiece(c, true);
      UpperLowerUpper(p[0]);
      assert c[1..] == p[1..];
      assert [p[0]] + p[1..] == p;
    }
  }

  /** A leading single piece is cased on its own; what follows starts a new case run. */
  lemma {:induction false} PascalFromSplit(s: string, t: string, capitalize: bool)
    requires NoSeparators(s) && s != []
    ensures PascalFrom(s + t, capitalize) == PascalFrom(s, capitalize) + PascalFrom(t, false)
    decreases |s|
  {
    assert (s + t)[1..] == s[1..] + t;
    if |s| > 1 {
      PascalFromSplit(s[1..], t, false);
    } else {
      assert s[1..] == [];
    }
  }

  /**
   * The casing is not injective: a `-` followed by a lower-case letter and that letter
   * upper-cased give the same Pascal form (`foo-bar` and `fooBar` both become `FooBar`),
   * so two different asset names can yield one synthesized binding.
   */
  lemma PascalCaseCollides(a: string, b: string)
    requires a != [] && NoSeparators(a) && b != [] && NoSeparators(b) && 'a' <= b[0] <= 'z'
    ensures a + "-" + b != a + [Upper(b[0])] + b[1..]
    ensures PascalCase(a + "-" + b) == PascalCase(a + [Upper(b[0])] + b[1..])
  {
    var dashed, joined := a + "-" + b, a + [Upper(b[0])] + b[1..];
    assert dashed[|a|] == '-' && joined[|a|] == Upper(b[0]);
    assert dashed == a + ("-" + b) && joined == a + ([Upper(b[0])] + b[1..]);
    PascalFromSplit(a, "-" + b, true);
    PascalFromSplit(a, [Upper(b[0])] + b[1..], true);
    assert ("-" + b)[1..] == b;
    PascalOfSinglePiece(b, true);
    var c := [Upper(b[0])] + b[1..];
    assert NoSeparators(c) by {
      forall k | 0 <= k < |c| ensures !IsSeparator(c[k]) {
        if k > 0 { assert c[k] == b[k]; }
      }
    }
    PascalOfSinglePiece(c, false);
  }
}
