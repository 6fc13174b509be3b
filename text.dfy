/**
 * The parts of Go's `strings` package and of its regular-expression
 * character classes that the editor relies on, restricted to ASCII.
 */
module Text {

  /** The characters `strings.TrimSpace` removes (its ASCII subset). */
  const AsciiSpace: set<char> := {' ', '\t', '\n', '\U{000B}', '\U{000C}', '\r'}

  /** The cut set `"\"'"` the editor trims around front-matter values. */
  const Quotes: set<char> := {'"', '\''}

  predicate IsUpper(c: char) { 'A' <= c <= 'Z' }

  predicate IsLowerLetter(c: char) { 'a' <= c <= 'z' }

  predicate IsDigit(c: char) { '0' <= c <= '9' }

  /** `\w` of Go's RE2 syntax: `[0-9A-Za-z_]`. */
  predicate IsWordChar(c: char) { IsLowerLetter(c) || IsUpper(c) || IsDigit(c) || c == '_' }

  /** `\s` of Go's RE2 syntax: `[\t\n\f\r ]` (no vertical tab). */
  predicate IsRegexSpace(c: char) { c == ' ' || c == '\t' || c == '\n' || c == '\U{000C}' || c == '\r' }

  predicate AllDigits(s: string) { forall i :: 0 <= i < |s| ==> IsDigit(s[i]) }

  // ---------------------------------------------------------------------
  // Trimming

  /** `strings.TrimLeft(s, cut)`: drops every leading character that is in `cut`. */
  function TrimLeft(s: string, cut: set<char>): string
  {
    if s != [] && s[0] in cut then TrimLeft(s[1..], cut) else s
  }

  /** `strings.TrimRight(s, cut)`: drops every trailing character that is in `cut`. */
  function TrimRight(s: string, cut: set<char>): string
  {
    if s != [] && s[|s| - 1] in cut then TrimRight(s[..|s| - 1], cut) else s
  }

  /** `strings.Trim(s, cut)`: removes ALL leading and trailing characters in `cut`, not one layer. */
  function Trim(s: string, cut: set<char>): string
  {
    TrimRight(TrimLeft(s, cut), cut)
  }

  /** `strings.TrimSpace` on ASCII whitespace. */
  function TrimSpace(s: string): string
  {
    Trim(s, AsciiSpace)
  }

  /** TrimLeft keeps a suffix of `s`, removes only `cut` characters, and stops at one outside `cut`. */
  lemma {:induction false} TrimLeftSpec(s: string, cut: set<char>)
    ensures var r := TrimLeft(s, cut);
            && |r| <= |s| && r == s[|s| - |r|..]
            && (forall i :: 0 <= i < |s| - |r| ==> s[i] in cut)
            && (r != [] ==> r[0] !in cut)
  {
    if s != [] && s[0] in cut {
      var t := s[1..];
      TrimLeftSpec(t, cut);
      var r := TrimLeft(t, cut);
      assert s[|s| - |r|..] == t[|t| - |r|..];
      forall i | 0 <= i < |s| - |r|
        ensures s[i] in cut
      {
        if i > 0 {
          assert s[i] == t[i - 1];
        }
      }
    }
  }

  /** TrimRight keeps a prefix of `s`, removes only `cut` characters, and stops at one outside `cut`. */
  lemma {:induction false} TrimRightSpec(s: string, cut: set<char>)
    ensures var r := TrimRight(s, cut);
            && |r| <= |s| && r == s[..|r|]
            && (forall i :: |r| <= i < |s| ==> s[i] in cut)
            && (r != [] ==> r[|r| - 1] !in cut)
  {
    if s != [] && s[|s| - 1] in cut {
      var t := s[..|s| - 1];
      TrimRightSpec(t, cut);
      var r := TrimRight(t, cut);
      assert s[..|r|] == t[..|r|];
      forall i | |r| <= i < |s|
        ensures s[i] in cut
      {
        if i < |t| {
          assert s[i] == t[i];
        }
      }
    }
  }

  /** After Trim, neither end of the result is in `cut`. */
  lemma TrimEnds(s: string, cut: set<char>)
    ensures var r := Trim(s, cut);
            |r| <= |s| && (r != [] ==> r[0] !in cut && r[|r| - 1] !in cut)
  {
    var l := TrimLeft(s, cut);
    TrimLeftSpec(s, cut);
    TrimRightSpec(l, cut);
    var r := TrimRight(l, cut);
    if r != [] {
      assert r[0] == l[0];
    }
  }

  /** A string whose ends are already outside `cut` is left alone by Trim. */
  lemma TrimKeepsTrimmed(s: string, cut: set<char>)
    requires s != [] ==> s[0] !in cut && s[|s| - 1] !in cut
    ensures Trim(s, cut) == s
  {
  }

  /** Trimming twice is trimming once. */
  lemma TrimIdempotent(s: string, cut: set<char>)
    ensures Trim(Trim(s, cut), cut) == Trim(s, cut)
  {
    TrimEnds(s, cut);
    TrimKeepsTrimmed(Trim(s, cut), cut);
  }

  /** Trim removes exactly a run of `cut` characters at each end: what is left is a slice of `s`. */
  lemma TrimIsSlice(s: string, cut: set<char>)
    ensures var a := |s| - |TrimLeft(s, cut)|;
            var r := Trim(s, cut);
            && 0 <= a && a + |r| <= |s|
            && r == s[a .. a + |r|]
            && (forall i :: 0 <= i < a ==> s[i] in cut)
            && (forall i :: a + |r| <= i < |s| ==> s[i] in cut)
  {
    var l := TrimLeft(s, cut);
    TrimLeftSpec(s, cut);
    TrimRightSpec(l, cut);
    var a := |s| - |l|;
    var r := TrimRight(l, cut);
    assert r == l[..|r|];
    assert l == s[a..];
    forall i | a + |r| <= i < |s| ensures s[i] in cut {
      assert s[i] == l[i - a];
    }
  }

  // ---------------------------------------------------------------------
  // Prefixes and suffixes

  predicate HasPrefix(s: string, p: string) { |p| <= |s| && s[..|p|] == p }

  predicate HasSuffix(s: string, p: string) { |p| <= |s| && s[|s| - |p|..] == p }

  /** `strings.TrimPrefix`. */
  function TrimPrefix(s: string, p: string): (r: string)
    ensures HasPrefix(s, p) ==> p + r == s
    ensures !HasPrefix(s, p) ==> r == s
  {
    if HasPrefix(s, p) then s[|p|..] else s
  }

  /** `strings.TrimSuffix`. */
  function TrimSuffix(s: string, p: string): (r: string)
    ensures HasSuffix(s, p) ==> r + p == s
    ensures !HasSuffix(s, p) ==> r == s
  {
    if HasSuffix(s, p) then s[..|s| - |p|] else s
  }

  // ---------------------------------------------------------------------
  // Case

  function LowerChar(c: char): char
  {
    if IsUpper(c) then (c as int + 32) as char else c
  }

  /** `strings.ToLower` on ASCII letters; other characters are kept. */
  function Lower(s: string): (r: string)
    ensures |r| == |s|
    ensures forall i :: 0 <= i < |s| ==> !IsUpper(r[i])
    ensures forall i :: 0 <= i < |s| ==>
              && (IsUpper(s[i]) ==> r[i] as int == s[i] as int + 32)
              && (!IsUpper(s[i]) ==> r[i] == s[i])
  {
    seq(|s|, i requires 0 <= i < |s| => LowerChar(s[i]))
  }

  /** Lower changes nothing in a string without upper-case letters. */
  lemma LowerKeepsLower(s: string)
    requires forall i :: 0 <= i < |s| ==> !IsUpper(s[i])
    ensures Lower(s) == s
  {
  }

  // ---------------------------------------------------------------------
  // Splitting into lines

  /** `strings.Split(s, sep)` for a one-character separator: n separators give n + 1 pieces. */
  function Split(s: string, sep: char): (r: seq<string>)
    ensures |r| >= 1
    ensures forall i :: 0 <= i < |r| ==> sep !in r[i]
  {
    if s == [] then [""]
    else
      var rest := Split(s[1..], sep);
      if s[0] == sep then [""] + rest else [[s[0]] + rest[0]] + rest[1..]
  }

  /** `strings.Join(ls, sep)`, the inverse of Split. */
  function Join(ls: seq<string>, sep: char): string
    requires |ls| >= 1
  {
    if |ls| == 1 then ls[0] else ls[0] + [sep] + Join(ls[1..], sep)
  }

  /** Joining the pieces with the separator gives back the text. */
  lemma {:induction false} JoinSplit(s: string, sep: char)
    ensures Join(Split(s, sep), sep) == s
  {
    if s != [] {
      var rest := Split(s[1..], sep);
      JoinSplit(s[1..], sep);
      if s[0] == sep {
        assert Split(s, sep)[1..] == rest;
      } else {
        var r := Split(s, sep);
        if |rest| == 1 {
        } else {
          assert r[1..] == rest[1..];
          assert Join(r, sep) == [s[0]] + rest[0] + [sep] + Join(rest[1..], sep);
        }
      }
    }
  }

  /** Splitting a join of separator-free pieces gives back the pieces. */
  lemma {:induction false} SplitJoin(ls: seq<string>, sep: char)
    requires |ls| >= 1
    requires forall i :: 0 <= i < |ls| ==> sep !in ls[i]
    ensures Split(Join(ls, sep), sep) == ls
  {
    if |ls| == 1 {
      SplitPiece(ls[0], sep);
    } else {
      SplitJoin(ls[1..], sep);
      SplitAfter(ls[0], Join(ls[1..], sep), sep);
      assert [ls[0]] + ls[1..] == ls;
    }
  }

  /** A separator-free string is one piece. */
  lemma {:induction false} SplitPiece(s: string, sep: char)
    requires sep !in s
    ensures Split(s, sep) == [s]
  {
    if s != [] {
      SplitPiece(s[1..], sep);
      assert [s[0]] + s[1..] == s;
    }
  }

  /** Split of `a + [sep] + b` for separator-free `a`. */
  lemma {:induction false} SplitAfter(a: string, b: string, sep: char)
    requires sep !in a
    ensures Split(a + [sep] + b, sep) == [a] + Split(b, sep)
  {
    if a == [] {
      assert a + [sep] + b == [sep] + b;
      assert ([sep] + b)[1..] == b;
    } else {
      SplitAfter(a[1..], b, sep);
      assert (a + [sep] + b)[1..] == a[1..] + [sep] + b;
      assert [a[0]] + a[1..] == a;
    }
  }

  // ---------------------------------------------------------------------
  // Ordering of strings

  /**
   * Go's `<` on strings: lexicographic on UTF-8 bytes, which orders the
   * same way as lexicographic order on code points.
   */
  predicate Less(a: string, b: string)
  {
    if b == [] then false
    else if a == [] then true
    else if a[0] != b[0] then a[0] < b[0]
    else Less(a[1..], b[1..])
  }

  lemma {:induction false} LessIrreflexive(a: string)
    ensures !Less(a, a)
  {
    if a != [] {
      LessIrreflexive(a[1..]);
    }
  }

  lemma {:induction false} LessAsymmetric(a: string, b: string)
    ensures Less(a, b) ==> !Less(b, a)
  {
    if a != [] && b != [] && a[0] == b[0] {
      LessAsymmetric(a[1..], b[1..]);
    }
  }

  /** Two strings neither of which is less than the other are equal. */
  lemma {:induction false} LessTotal(a: string, b: string)
    ensures a == b || Less(a, b) || Less(b, a)
  {
    if a != [] && b != [] && a[0] == b[0] {
      LessTotal(a[1..], b[1..]);
      if a[1..] == b[1..] {
        assert a == [a[0]] + a[1..] && b == [b[0]] + b[1..];
      }
    }
  }

  lemma {:induction false} LessTransitive(a: string, b: string, c: string)
    requires Less(a, b) && Less(b, c)
    ensures Less(a, c)
  {
    if a != [] && a[0] == b[0] && b[0] == c[0] {
      LessTransitive(a[1..], b[1..], c[1..]);
    }
  }

  /** "Not less than" is transitive too, so it orders strings. */
  lemma NotLessTransitive(a: string, b: string, c: string)
    requires !Less(a, b) && !Less(b, c)
    ensures !Less(a, c)
  {
    LessTotal(a, b);
    if Less(b, a) && Less(a, c) {
      LessTransitive(b, a, c);
    }
  }
}
