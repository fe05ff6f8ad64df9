/** The string helpers the program borrows from its standard library, over ASCII. */
module Text {

  function LowerChar(c: char): char {
    if 'A' <= c <= 'Z' then c + 32 as char else c
  }

  function ToLower(s: string): string {
    seq(|s|, i requires 0 <= i < |s| => LowerChar(s[i]))
  }

  /** The ASCII characters `strings.TrimSpace` removes: tab, newline, vertical tab, form feed, return, space. */
  predicate Blank(c: char) {
    c == ' ' || '\t' <= c <= '\r'
  }

  function TrimSpace(s: string): string {
    if s != [] && Blank(s[0]) then TrimSpace(s[1..])
    else if s != [] && Blank(s[|s| - 1]) then TrimSpace(s[..|s| - 1])
    else s
  }

  predicate EqualFold(a: string, b: string) {
    ToLower(a) == ToLower(b)
  }

  /** Two strings are equal under folding exactly when they differ at most in the case of ASCII letters. */
  lemma EqualFoldIff(a: string, b: string)
    ensures EqualFold(a, b) <==> |a| == |b| && forall i :: 0 <= i < |a| ==> SameLetter(a[i], b[i])
  {
    if EqualFold(a, b) {
      assert |ToLower(a)| == |ToLower(b)|;
      forall i | 0 <= i < |a|
        ensures SameLetter(a[i], b[i])
      {
        assert ToLower(a)[i] == ToLower(b)[i];
      }
    }
  }

  predicate SameLetter(c: char, d: char) {
    || c == d
    || ('a' <= c <= 'z' && d as int == c as int - 32)
    || ('a' <= d <= 'z' && c as int == d as int - 32)
  }

  predicate AllBlank(s: string) {
    forall c <- s :: c == ' ' || c == '\t' || c == '\n' || c == '\U{0B}' || c == '\U{0C}' || c == '\r'
  }

  /** What is trimmed off at either end is blank. */
  lemma {:induction false} TrimBounds(s: string) returns (i: nat, j: nat)
    ensures i <= j <= |s| && TrimSpace(s) == s[i..j] && AllBlank(s[..i]) && AllBlank(s[j..])
    decreases |s|
  {
    if s != [] && Blank(s[0]) {
      i, j := TrimBounds(s[1..]);
      TrimmedFront(s, i, j);
      i, j := i + 1, j + 1;
    } else if s != [] && Blank(s[|s| - 1]) {
      i, j := TrimBounds(s[..|s| - 1]);
      TrimmedBack(s, i, j);
    } else {
      i, j := 0, |s|;
      assert s == s[0..|s|] && s[..0] == "" && s[|s|..] == "";
    }
  }

  lemma {:induction false} TrimEnds(s: string)
    ensures var t := TrimSpace(s); t == "" || (!AllBlank([t[0]]) && !AllBlank([t[|t| - 1]]))
    decreases |s|
  {
    if s != [] && Blank(s[0]) {
      TrimEnds(s[1..]);
    } else if s != [] && Blank(s[|s| - 1]) {
      TrimEnds(s[..|s| - 1]);
    } else if s != [] {
      assert s[0] in [s[0]] && s[|s| - 1] in [s[|s| - 1]];
    }
  }

  /** Trimming removes blanks at both ends, all of them, and nothing else. */
  lemma TrimSpaceSpec(s: string)
    ensures var t := TrimSpace(s);
      && (exists i, j :: 0 <= i <= j <= |s| && t == s[i..j] && AllBlank(s[..i]) && AllBlank(s[j..]))
      && (t == "" || (!AllBlank([t[0]]) && !AllBlank([t[|t| - 1]])))
  {
    var i, j := TrimBounds(s);
    TrimEnds(s);
  }

  lemma TrimmedFront(s: string, i: nat, j: nat)
    requires s != [] && Blank(s[0]) && i <= j <= |s[1..]| && AllBlank(s[1..][..i]) && AllBlank(s[1..][j..])
    ensures s[1..][i..j] == s[i + 1..j + 1] && AllBlank(s[..i + 1]) && AllBlank(s[j + 1..])
  {
    assert s[..i + 1] == [s[0]] + s[1..][..i];
    assert s[j + 1..] == s[1..][j..];
  }

  lemma TrimmedBack(s: string, i: nat, j: nat)
    requires s != [] && Blank(s[|s| - 1]) && i <= j < |s|
    requires AllBlank(s[..|s| - 1][..i]) && AllBlank(s[..|s| - 1][j..])
    ensures s[..|s| - 1][i..j] == s[i..j] && AllBlank(s[..i]) && AllBlank(s[j..])
  {
    assert s[..i] == s[..|s| - 1][..i];
    assert s[j..] == s[..|s| - 1][j..] + [s[|s| - 1]];
  }

  function TrimPrefix(s: string, prefix: string): string {
    if prefix <= s then s[|prefix|..] else s
  }
}
