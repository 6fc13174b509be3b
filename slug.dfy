/**
 * The slug handleSave derives from a post's title: lower-cased, every
 * character outside `[\w\s-]` deleted, then every run of `\s` replaced by
 * one hyphen.
 */
module Slug {
  import opened Text

  /** The characters the pattern `[^\w\s-]` leaves in place. */
  predicate Kept(c: char) { IsWordChar(c) || IsRegexSpace(c) || c == '-' }

  /** The characters a slug may contain: `a-z`, `0-9`, `_` and `-`. */
  predicate SlugChar(c: char) { IsLowerLetter(c) || IsDigit(c) || c == '_' || c == '-' }

  /** The word characters of `s`, in order: what a slug must keep of its title. */
  function WordChars(s: string): (r: string)
    ensures |r| <= |s|
    ensures forall i :: 0 <= i < |r| ==> IsWordChar(r[i])
    ensures forall c :: c in r <==> c in s && IsWordChar(c)
  {
    if s == [] then [] else (if IsWordChar(s[0]) then [s[0]] else []) + WordChars(s[1..])
  }

  /** Replacing `[^\w\s-]` by the empty string. */
  function DeleteNonWord(s: string): string
  {
    if s == [] then [] else (if Kept(s[0]) then [s[0]] else []) + DeleteNonWord(s[1..])
  }

  /** The text after the run of `\s` characters at the front of `s`. */
  function DropSpaces(s: string): (r: string)
    ensures |r| <= |s|
  {
    if s != [] && IsRegexSpace(s[0]) then DropSpaces(s[1..]) else s
  }

  /** Replacing each maximal run of `\s` by one `-` (the pattern `\s+` is greedy). */
  function Collapse(s: string): (r: string)
    ensures |r| <= |s|
    ensures r == [] <==> s == []
    decreases |s|
  {
    if s == [] then []
    else if IsRegexSpace(s[0]) then "-" + Collapse(DropSpaces(s[1..]))
    else [s[0]] + Collapse(s[1..])
  }

  /** The slug of a title. */
  function Slugify(title: string): string
  {
    Collapse(DeleteNonWord(Lower(title)))
  }

  // ---------------------------------------------------------------------
  // What each stage keeps

  /** After the deletion only `[\w\s-]` is left, and nothing upper-case appears. */
  lemma {:induction false} DeleteNonWordKept(s: string)
    requires forall i :: 0 <= i < |s| ==> !IsUpper(s[i])
    ensures forall i :: 0 <= i < |DeleteNonWord(s)| ==> var c := DeleteNonWord(s)[i]; Kept(c) && !IsUpper(c)
  {
    if s != [] {
      DeleteNonWordKept(s[1..]);
    }
  }

  /** The deletion removes no word character and reorders nothing. */
  lemma {:induction false} DeleteNonWordWords(s: string)
    ensures WordChars(DeleteNonWord(s)) == WordChars(s)
  {
    if s != [] {
      DeleteNonWordWords(s[1..]);
      var head := if Kept(s[0]) then [s[0]] else [];
      WordCharsAppend(head, DeleteNonWord(s[1..]));
    }
  }

  /** A string made of `[\w\s-]` only is left alone by the deletion. */
  lemma {:induction false} DeleteNonWordKeepsAll(s: string)
    requires forall i :: 0 <= i < |s| ==> Kept(s[i])
    ensures DeleteNonWord(s) == s
  {
    if s != [] {
      DeleteNonWordKeepsAll(s[1..]);
      assert [s[0]] + s[1..] == s;
    }
  }

  lemma {:induction false} WordCharsAppend(a: string, b: string)
    ensures WordChars(a + b) == WordChars(a) + WordChars(b)
  {
    if a != [] {
      WordCharsAppend(a[1..], b);
      assert (a + b)[1..] == a[1..] + b;
    } else {
      assert a + b == b;
    }
  }

  /** The spaces DropSpaces removes hold no word character. */
  lemma {:induction false} DropSpacesWords(s: string)
    ensures WordChars(DropSpaces(s)) == WordChars(s)
    ensures DropSpaces(s) != [] ==> !IsRegexSpace(DropSpaces(s)[0])
  {
    if s != [] && IsRegexSpace(s[0]) {
      DropSpacesWords(s[1..]);
    }
  }

  /** Collapsing the whitespace runs removes no word character and reorders nothing. */
  lemma {:induction false} CollapseWords(s: string)
    ensures WordChars(Collapse(s)) == WordChars(s)
    decreases |s|
  {
    if s != [] {
      if IsRegexSpace(s[0]) {
        var rest := DropSpaces(s[1..]);
        CollapseWords(rest);
        DropSpacesWords(s[1..]);
        WordCharsAppend("-", Collapse(rest));
      } else {
        CollapseWords(s[1..]);
        WordCharsAppend([s[0]], Collapse(s[1..]));
      }
    }
  }

  /** A string of slug characters and whitespace collapses to slug characters only. */
  lemma {:induction false} CollapseAlphabet(s: string)
    requires forall i :: 0 <= i < |s| ==> SlugChar(s[i]) || IsRegexSpace(s[i])
    ensures forall i :: 0 <= i < |Collapse(s)| ==> SlugChar(Collapse(s)[i])
    decreases |s|
  {
    if s != [] {
      if IsRegexSpace(s[0]) {
        var rest := DropSpaces(s[1..]);
        assert rest == s[|s| - |rest|..] by { DropSpacesSuffix(s[1..]); }
        CollapseAlphabet(rest);
      } else {
        CollapseAlphabet(s[1..]);
      }
    }
  }

  lemma {:induction false} DropSpacesSuffix(s: string)
    ensures DropSpaces(s) == s[|s| - |DropSpaces(s)|..]
  {
    if s != [] && IsRegexSpace(s[0]) {
      DropSpacesSuffix(s[1..]);
    }
  }

  /** A string without whitespace is left alone by Collapse. */
  lemma {:induction false} CollapseKeepsAll(s: string)
    requires forall i :: 0 <= i < |s| ==> !IsRegexSpace(s[i])
    ensures Collapse(s) == s
  {
    if s != [] {
      CollapseKeepsAll(s[1..]);
      assert [s[0]] + s[1..] == s;
    }
  }

  // ---------------------------------------------------------------------
  // Properties of the slug

  /** Every character of a slug is one of `a-z`, `0-9`, `_` or `-`. */
  lemma SlugAlphabet(title: string)
    ensures forall i :: 0 <= i < |Slugify(title)| ==> SlugChar(Slugify(title)[i])
  {
    var d := DeleteNonWord(Lower(title));
    DeleteNonWordKept(Lower(title));
    CollapseAlphabet(d);
  }

  /** The slug keeps every letter, digit and underscore of the lower-cased title, in order. */
  lemma SlugKeepsWords(title: string)
    ensures WordChars(Slugify(title)) == WordChars(Lower(title))
  {
    DeleteNonWordWords(Lower(title));
    CollapseWords(DeleteNonWord(Lower(title)));
  }

  /** A slug is its own slug: deriving it again changes nothing. */
  lemma SlugFixedPoint(title: string)
    ensures Slugify(Slugify(title)) == Slugify(title)
  {
    var s := Slugify(title);
    SlugAlphabet(title);
    LowerKeepsLower(s);
    DeleteNonWordKeepsAll(s);
    CollapseKeepsAll(s);
  }

  /** The deletion works character by character, so it distributes over concatenation. */
  lemma {:induction false} DeleteNonWordAppend(a: string, b: string)
    ensures DeleteNonWord(a + b) == DeleteNonWord(a) + DeleteNonWord(b)
  {
    if a == [] {
      assert a + b == b;
    } else {
      DeleteNonWordAppend(a[1..], b);
      var head := if Kept(a[0]) then [a[0]] else [];
      assert (a + b)[0] == a[0] && (a + b)[1..] == a[1..] + b;
      assert DeleteNonWord(a + b) == head + DeleteNonWord(a[1..] + b);
      assert head + (DeleteNonWord(a[1..]) + DeleteNonWord(b)) == (head + DeleteNonWord(a[1..])) + DeleteNonWord(b);
    }
  }

  lemma {:induction false} DropSpacesAppend(a: string, b: string)
    requires b == [] || !IsRegexSpace(b[0])
    ensures DropSpaces(a + b) == DropSpaces(a) + b
  {
    if a == [] {
      assert a + b == b;
    } else if IsRegexSpace(a[0]) {
      DropSpacesAppend(a[1..], b);
      assert (a + b)[1..] == a[1..] + b;
    }
  }

  /** No whitespace run crosses the seam when `b` does not start with one, so Collapse distributes. */
  lemma {:induction false} CollapseAppend(a: string, b: string)
    requires b == [] || !IsRegexSpace(b[0])
    ensures Collapse(a + b) == Collapse(a) + Collapse(b)
    decreases |a|
  {
    if a == [] {
      assert a + b == b;
    } else {
      assert (a + b)[1..] == a[1..] + b;
      if IsRegexSpace(a[0]) {
        DropSpacesAppend(a[1..], b);
        CollapseAppend(DropSpaces(a[1..]), b);
      } else {
        CollapseAppend(a[1..], b);
      }
    }
  }

  /** A string without whitespace in front passes through Collapse unchanged. */
  lemma {:induction false} CollapseAfterWord(w: string, t: string)
    requires forall i :: 0 <= i < |w| ==> !IsRegexSpace(w[i])
    ensures Collapse(w + t) == w + Collapse(t)
  {
    if w == [] {
      assert w + t == t;
    } else {
      CollapseAfterWord(w[1..], t);
      assert (w + t)[1..] == w[1..] + t;
    }
  }

  lemma {:induction false} DropAllSpaces(s: string)
    requires forall i :: 0 <= i < |s| ==> IsRegexSpace(s[i])
    ensures DropSpaces(s) == []
  {
    if s != [] {
      DropAllSpaces(s[1..]);
    }
  }

  /** A string with no character of `[\w\s-]` is deleted entirely. */
  lemma {:induction false} DeleteNonWordDropsAll(s: string)
    requires forall i :: 0 <= i < |s| ==> !Kept(s[i])
    ensures DeleteNonWord(s) == []
  {
    if s != [] {
      DeleteNonWordDropsAll(s[1..]);
    }
  }

  lemma LowerAppend(a: string, b: string)
    ensures Lower(a + b) == Lower(a) + Lower(b)
  {
  }

  /** A title made of word characters only is its own slug, lower-cased. */
  lemma SlugOfWord(w: string)
    requires forall i :: 0 <= i < |w| ==> IsWordChar(w[i])
    ensures Slugify(w) == Lower(w)
  {
    var l := Lower(w);
    assert forall i :: 0 <= i < |l| ==> IsWordChar(l[i]);
    DeleteNonWordKeepsAll(l);
    CollapseKeepsAll(l);
  }

  /** The deletion step on a word, punctuation, whitespace and the rest. */
  lemma DeleteAroundWord(w: string, punct: string, spaces: string, rest: string)
    requires forall i :: 0 <= i < |w| ==> IsWordChar(w[i])
    requires forall i :: 0 <= i < |punct| ==> !Kept(punct[i])
    requires forall i :: 0 <= i < |spaces| ==> IsRegexSpace(spaces[i])
    ensures DeleteNonWord(Lower(w + punct + spaces + rest)) == Lower(w) + (spaces + DeleteNonWord(Lower(rest)))
  {
    var lw, lp, ls, lr := Lower(w), Lower(punct), Lower(spaces), Lower(rest);
    LowerAppend(w + punct + spaces, rest);
    LowerAppend(w + punct, spaces);
    LowerAppend(w, punct);
    assert forall i :: 0 <= i < |lw| ==> IsWordChar(lw[i]);
    assert lp == punct && ls == spaces;
    var r := DeleteNonWord(lr);
    calc {
      DeleteNonWord(Lower(w + punct + spaces + rest));
      DeleteNonWord(lw + lp + ls + lr);
      { DeleteNonWordAppend(lw + lp + ls, lr); }
      DeleteNonWord(lw + lp + ls) + r;
      { DeleteNonWordAppend(lw + lp, ls); DeleteNonWordKeepsAll(ls); }
      DeleteNonWord(lw + lp) + ls + r;
      { DeleteNonWordAppend(lw, lp); DeleteNonWordKeepsAll(lw); DeleteNonWordDropsAll(lp); }
      lw + ls + r;
    }
    assert lw + ls + r == lw + (ls + r);
  }

  /** A non-empty whitespace run in front of text that does not start with whitespace becomes one hyphen. */
  lemma CollapseLeadingSpaces(spaces: string, rest: string)
    requires spaces != [] && forall i :: 0 <= i < |spaces| ==> IsRegexSpace(spaces[i])
    requires rest == [] || !IsRegexSpace(rest[0])
    ensures Collapse(spaces + rest) == "-" + Collapse(rest)
  {
    var t := spaces + rest;
    assert t[0] == spaces[0] && t[1..] == spaces[1..] + rest;
    DropSpacesAppend(spaces[1..], rest);
    DropAllSpaces(spaces[1..]);
    assert DropSpaces(t[1..]) == rest;
  }

  /** The collapse step: a non-empty whitespace run between a word and the rest becomes one hyphen. */
  lemma CollapseAroundWord(w: string, spaces: string, rest: string)
    requires forall i :: 0 <= i < |w| ==> !IsRegexSpace(w[i])
    requires spaces != [] && forall i :: 0 <= i < |spaces| ==> IsRegexSpace(spaces[i])
    requires rest == [] || !IsRegexSpace(rest[0])
    ensures Collapse(w + (spaces + rest)) == w + "-" + Collapse(rest)
  {
    var t, c := spaces + rest, Collapse(rest);
    CollapseLeadingSpaces(spaces, rest);
    CollapseAfterWord(w, t);
    assert Collapse(w + t) == w + ("-" + c);
    assert w + ("-" + c) == w + "-" + c;
  }

  /**
   * A word followed by punctuation, a run of whitespace and more text that
   * starts with a word character: the punctuation goes and the whole run
   * becomes a single hyphen.
   */
  lemma SlugWordThen(w: string, punct: string, spaces: string, rest: string)
    requires forall i :: 0 <= i < |w| ==> IsWordChar(w[i])
    requires forall i :: 0 <= i < |punct| ==> !Kept(punct[i])
    requires spaces != [] && forall i :: 0 <= i < |spaces| ==> IsRegexSpace(spaces[i])
    requires rest == [] || IsWordChar(rest[0])
    ensures Slugify(w + punct + spaces + rest) == Lower(w) + "-" + Slugify(rest)
  {
    DeleteAroundWord(w, punct, spaces, rest);
    var lw, r := Lower(w), DeleteNonWord(Lower(rest));
    assert forall i :: 0 <= i < |lw| ==> IsWordChar(lw[i]);
    assert r == [] || !IsRegexSpace(r[0]);
    CollapseAroundWord(lw, spaces, r);
  }

  lemma LowerExample()
    ensures Lower("Hello") == "hello" && Lower("World") == "world" && Lower("Foo") == "foo"
  {
  }

  /** The title `First Post` becomes the slug `first-post`. */
  lemma SampleFirstPost()
    ensures Slugify("First" + " " + "Post") == "first-post"
  {
    assert "First" + " " + "Post" == "First" + "" + " " + "Post";
    SlugWordThen("First", "", " ", "Post");
    SlugOfWord("Post");
    LowerFirstPost();
  }

  /** Lower-casing the two words of the sample title. */
  lemma LowerFirstPost()
    ensures Lower("First") == "first" && Lower("Post") == "post"
  {
  }

  lemma SlugExampleTail()
    ensures Slugify("World" + "!" + "  " + "Foo") == "world-foo"
  {
    SlugWordThen("World", "!", "  ", "Foo");
    SlugOfWord("Foo");
    LowerExample();
  }

  /** The example of the save path: punctuation goes, the double space becomes one hyphen. */
  lemma SlugExample()
    ensures Slugify("Hello" + ", " + "World" + "!  " + "Foo") == "hello-world-foo"
  {
    assert "Hello" + ", " + "World" + "!  " + "Foo" == "Hello" + "," + " " + ("World" + "!" + "  " + "Foo");
    SlugWordThen("Hello", ",", " ", "World" + "!" + "  " + "Foo");
    SlugExampleTail();
    LowerExample();
  }
}
