/**
 * The post record the editor shows, and how a post's title and date fall
 * back to its file name and modification time when the front matter has
 * none.
 */
module Posts {
  import opened Wrappers
  import opened Text
  import opened Dates
  import opened FrontMatter

  /** A post: its path under the content directory, its text (empty in listings), title and date. */
  datatype Post = Post(path: string, content: string, title: string, date: string)

  // ---------------------------------------------------------------------
  // Path helpers (`path/filepath` with `/` as the separator)

  /** `filepath.Ext`: from the last `.` of the last path element on, or "" when that element has none. */
  function Ext(path: string): string
  {
    if path == [] || path[|path| - 1] == '/' then ""
    else if path[|path| - 1] == '.' then "."
    else
      var e := Ext(path[..|path| - 1]);
      if e == "" then "" else e + [path[|path| - 1]]
  }

  /** A suffix stays a suffix when the same character is added to both. */
  lemma SuffixSnoc(p: string, e: string, c: char)
    requires HasSuffix(p, e)
    ensures HasSuffix(p + [c], e + [c])
  {
    var q := p + [c];
    assert q[|q| - |e| - 1..] == p[|p| - |e|..] + [c];
  }

  /**
   * Ext is a suffix of the path that starts with its only dot and holds no
   * separator, and it is empty only when the last path element has no dot.
   */
  lemma {:induction false} ExtSpec(path: string)
    ensures var e := Ext(path);
            && HasSuffix(path, e)
            && (e != "" ==> e[0] == '.' && '.' !in e[1..] && '/' !in e)
            && (e == "" ==> '.' !in LastElement(path))
  {
    if path != [] && path[|path| - 1] != '/' {
      var p, c := path[..|path| - 1], path[|path| - 1];
      assert path == p + [c];
      if c == '.' {
        assert path[|path| - 1..] == ".";
      } else {
        ExtSpec(p);
        var e := Ext(p);
        if e != "" {
          SuffixSnoc(p, e, c);
          assert (e + [c])[1..] == e[1..] + [c];
        } else {
          assert LastElement(path) == LastElement(p) + [c];
        }
      }
    }
  }

  /** The path without its extension (`strings.TrimSuffix(name, filepath.Ext(name))`). */
  function Stem(path: string): string
  {
    TrimSuffix(path, Ext(path))
  }

  /** Stem and extension put back together give the path. */
  lemma StemExt(path: string)
    ensures Stem(path) + Ext(path) == path
  {
    ExtSpec(path);
  }

  /** The listing's test for a markdown file: the lower-cased name ends in `.md`. */
  predicate IsMarkdown(name: string)
  {
    HasSuffix(Lower(name), ".md")
  }

  /** The same test, character by character: a dot, an `m` or `M`, and a `d` or `D` at the end. */
  predicate EndsInMd(name: string)
  {
    |name| >= 3 && name[|name| - 3] == '.' && LowerChar(name[|name| - 2]) == 'm' && LowerChar(name[|name| - 1]) == 'd'
  }

  lemma MarkdownChars(name: string)
    ensures IsMarkdown(name) <==> EndsInMd(name)
  {
    var n, low := |name|, Lower(name);
    if n >= 3 {
      var tail := low[n - 3..];
      assert tail[0] == LowerChar(name[n - 3]) && tail[1] == LowerChar(name[n - 2]) && tail[2] == LowerChar(name[n - 1]);
      assert LowerChar(name[n - 3]) == '.' <==> name[n - 3] == '.';
      if EndsInMd(name) {
        assert tail == ".md";
      }
    }
  }

  /** A name ending in `.md` in any letter case has exactly those three characters as its extension. */
  lemma MarkdownExt(name: string)
    requires EndsInMd(name)
    ensures Ext(name) == name[|name| - 3..]
    ensures Stem(name) == name[..|name| - 3]
  {
    var n := |name|;
    var p2, p1 := name[..n - 2], name[..n - 1];
    assert p2[|p2| - 1] == '.' && p1[..|p1| - 1] == p2;
    assert |Ext(p2)| == 1;
    assert |Ext(p1)| == 2;
    assert |Ext(name)| == 3;
    ExtSpec(name);
  }

  /** The path without trailing separators. */
  function TrimTrailingSlashes(path: string): (r: string)
    ensures |r| <= |path| && r == path[..|r|]
    ensures r == [] || r[|r| - 1] != '/'
    ensures forall i :: |r| <= i < |path| ==> path[i] == '/'
  {
    if path != [] && path[|path| - 1] == '/' then TrimTrailingSlashes(path[..|path| - 1]) else path
  }

  /** The part of `path` after its last separator. */
  function LastElement(path: string): string
  {
    if path == [] || path[|path| - 1] == '/' then [] else LastElement(path[..|path| - 1]) + [path[|path| - 1]]
  }

  /** `filepath.Base`: the last element after trailing separators are removed; "." for "", "/" for all separators. */
  function Base(path: string): string
  {
    if path == [] then "."
    else
      var last := LastElement(TrimTrailingSlashes(path));
      if last == [] then "/" else last
  }

  /**
   * The last element is the separator-free suffix that reaches back to the
   * last separator, or to the start of the path.
   */
  lemma {:induction false} LastElementSpec(path: string)
    ensures var l := LastElement(path); HasSuffix(path, l) && '/' !in l
    ensures var l := LastElement(path); |l| < |path| ==> path[|path| - |l| - 1] == '/'
    ensures path != [] && path[|path| - 1] != '/' ==> LastElement(path) != []
  {
    if path != [] && path[|path| - 1] != '/' {
      var p, c := path[..|path| - 1], path[|path| - 1];
      assert path == p + [c];
      LastElementSpec(p);
      var l' := LastElement(p);
      SuffixSnoc(p, l', c);
      assert LastElement(path) == l' + [c];
      if |l'| < |p| {
        assert path[|path| - |l'| - 2] == p[|p| - |l'| - 1];
      }
    }
  }

  /**
   * The base of a path is "." for the empty path and "/" for a path of
   * separators only; otherwise it is the whole last element once trailing
   * separators are removed: a separator-free suffix reaching back to the
   * previous separator or to the start.
   */
  lemma BaseSpec(path: string)
    ensures Base(path) != ""
    ensures path == [] ==> Base(path) == "."
    ensures path != [] && (forall i :: 0 <= i < |path| ==> path[i] == '/') ==> Base(path) == "/"
    ensures Base(path) != "/" ==> '/' !in Base(path)
    ensures var t, b := TrimTrailingSlashes(path), Base(path);
            t != [] ==> && HasSuffix(t, b) && '/' !in b
                        && (|b| < |t| ==> t[|t| - |b| - 1] == '/')
    ensures path != [] && path[|path| - 1] != '/' ==> HasSuffix(path, Base(path))
  {
    if path != [] {
      var t := TrimTrailingSlashes(path);
      LastElementSpec(t);
      if t != [] {
        assert t[|t| - 1] != '/' && t[|t| - 1] == path[|t| - 1];
      }
    }
  }

  // ---------------------------------------------------------------------
  // Fallbacks

  /** A missing title falls back to the file name without its extension. */
  function TitleOr(title: string, name: string): string
  {
    if title == "" then Stem(name) else title
  }

  /** A missing date falls back to the modification day, `YYYY-MM-DD`. */
  function DateOr(date: string, modTime: Instant): string
  {
    if date == "" then DateText(modTime) else date
  }

  /** The post as findMarkdownFiles and getPost present it: the front matter, else the fallbacks. */
  function ReadPost(path: string, content: string, modTime: Instant): (r: Post)
    ensures r.path == path && r.content == content && r.date != ""
  {
    var block := Block(Lines(content));
    Post(path, content, TitleOr(ListTitle(block), Base(path)), DateOr(ListDate(block), modTime))
  }

  /**
   * The front-matter scan with its fallbacks, as findMarkdownFiles and
   * getPost each do it: the post `ReadPost` describes.
   */
  method ReadPostFile(path: string, content: string, modTime: Instant) returns (p: Post)
    ensures p == ReadPost(path, content, modTime)
  {
    var title, date := ScanFrontMatter(content);
    if title == "" {
      title := Stem(Base(path));
    }
    if date == "" {
      date := DateText(modTime);
    }
    p := Post(path, content, title, date);
  }

  /**
   * A post's title is its front-matter title when there is one, and the
   * file name's stem otherwise; for a markdown file that is the name
   * without its last three characters.
   */
  lemma ReadPostTitle(path: string, content: string, modTime: Instant)
    ensures var t := ListTitle(Block(Lines(content)));
            var p := ReadPost(path, content, modTime);
            && (t != "" ==> p.title == t)
            && (t == "" && IsMarkdown(Base(path)) ==> p.title == Base(path)[..|Base(path)| - 3])
  {
    var t := ListTitle(Block(Lines(content)));
    if t == "" && IsMarkdown(Base(path)) {
      MarkdownChars(Base(path));
      MarkdownExt(Base(path));
    }
  }

  /**
   * A post's date is never empty: it is the front-matter date when there is
   * one, and otherwise the modification day, which reads back as a date.
   */
  lemma ReadPostDate(path: string, content: string, modTime: Instant)
    requires modTime.IsCalendarDate()
    ensures var d := ListDate(Block(Lines(content)));
            var p := ReadPost(path, content, modTime);
            && p.date != ""
            && (d != "" ==> p.date == d)
            && (d == "" ==> ResolveDate(p.date) == Some((YearText(modTime), MonthText(modTime))))
  {
    DateTextRoundTrip(modTime);
  }
}
