/**
 * The post listing (findMarkdownFiles): walk the content directory, keep
 * the markdown files, read each one's title and date, then sort the posts
 * newest first.
 */
module Listing {
  import opened Wrappers
  import opened Text
  import opened Dates
  import opened FrontMatter
  import opened Posts

  /**
   * One entry of the directory walk, in walk order: its path relative to the
   * content directory, whether it is a directory, its modification time, and
   * its text, or None when reading it fails.
   */
  datatype Entry = Entry(path: string, isDir: bool, modTime: Instant, content: Option<string>)

  /**
   * The entries the listing reads: files whose name ends in `.md` in any
   * letter case (EndsInMd, which MarkdownChars shows to be IsMarkdown).
   */
  predicate Listed(e: Entry)
  {
    !e.isDir && EndsInMd(Base(e.path))
  }

  /** The listing's post for a markdown file: read as getPost reads it, without the text. */
  function ListedPost(e: Entry, content: string): Post
  {
    ReadPost(e.path, content, e.modTime).(content := "")
  }

  /** The posts in walk order, or the path of the first markdown file that cannot be read. */
  function Collect(entries: seq<Entry>): (r: Result<seq<Post>, string>)
    ensures r.Success? ==> |r.value| <= |entries|
  {
    if entries == [] then Success([])
    else
      var prev := Collect(entries[..|entries| - 1]);
      var e := entries[|entries| - 1];
      if prev.Failure? || !Listed(e) then prev
      else if e.content.None? then Failure(e.path)
      else Success(prev.value + [ListedPost(e, e.content.value)])
  }

  /** Listed entries, in walk order. */
  function ListedEntries(entries: seq<Entry>): (r: seq<Entry>)
    ensures forall k :: 0 <= k < |r| ==> Listed(r[k])
    ensures forall e :: e in r <==> e in entries && Listed(e)
  {
    if entries == [] then []
    else
      var e := entries[|entries| - 1];
      assert entries == entries[..|entries| - 1] + [e];
      ListedEntries(entries[..|entries| - 1]) + (if Listed(e) then [e] else [])
  }

  /** Once a markdown file fails to read, the walk stops with that failure. */
  lemma {:induction false} CollectFailureSticks(entries: seq<Entry>, i: nat)
    requires i <= |entries|
    requires Collect(entries[..i]).Failure?
    ensures Collect(entries) == Collect(entries[..i])
    decreases |entries| - i
  {
    if i < |entries| {
      assert entries[..i + 1][..i] == entries[..i];
      CollectFailureSticks(entries, i + 1);
    } else {
      assert entries[..i] == entries;
    }
  }

  /** A markdown file that cannot be read. */
  predicate Unreadable(e: Entry)
  {
    Listed(e) && e.content.None?
  }

  /** Some markdown file among `entries` cannot be read. */
  predicate HasUnreadable(entries: seq<Entry>)
  {
    exists k :: 0 <= k < |entries| && Unreadable(entries[k])
  }

  /** An unreadable file among the earlier entries stays one when an entry is added. */
  lemma HasUnreadableGrows(entries: seq<Entry>)
    requires entries != [] && HasUnreadable(entries[..|entries| - 1])
    ensures HasUnreadable(entries)
  {
    var init := entries[..|entries| - 1];
    var k :| 0 <= k < |init| && Unreadable(init[k]);
    assert entries[k] == init[k];
  }

  /** An unreadable file that is not the last entry is among the earlier ones. */
  lemma HasUnreadableShrinks(entries: seq<Entry>)
    requires entries != [] && HasUnreadable(entries) && !Unreadable(entries[|entries| - 1])
    ensures HasUnreadable(entries[..|entries| - 1])
  {
    var init := entries[..|entries| - 1];
    var k :| 0 <= k < |entries| && Unreadable(entries[k]);
    assert init[k] == entries[k];
  }

  /** An unreadable markdown file is among the earlier entries or is the last one. */
  lemma HasUnreadableSnoc(entries: seq<Entry>)
    requires entries != []
    ensures var init, e := entries[..|entries| - 1], entries[|entries| - 1];
            HasUnreadable(entries) <==> HasUnreadable(init) || Unreadable(e)
  {
    var last := |entries| - 1;
    if HasUnreadable(entries[..last]) {
      HasUnreadableGrows(entries);
    } else if Unreadable(entries[last]) {
      assert 0 <= last < |entries|;
    } else if HasUnreadable(entries) {
      HasUnreadableShrinks(entries);
    }
  }

  /** The listing fails exactly when some markdown file cannot be read. */
  lemma {:induction false} CollectFails(entries: seq<Entry>)
    ensures Collect(entries).Failure? <==> HasUnreadable(entries)
  {
    if entries != [] {
      CollectFails(entries[..|entries| - 1]);
      HasUnreadableSnoc(entries);
    }
  }

  /**
   * A successful listing holds one post per markdown file, in walk order:
   * the file's path, its front-matter title and date or their fallbacks, and
   * no text. Directories and other files are skipped.
   */
  lemma {:induction false} CollectPosts(entries: seq<Entry>)
    requires Collect(entries).Success?
    ensures var posts, files := Collect(entries).value, ListedEntries(entries);
            && |posts| == |files|
            && forall k :: 0 <= k < |posts| ==>
                 files[k].content.Some? && posts[k] == ListedPost(files[k], files[k].content.value)
  {
    if entries != [] {
      var init := entries[..|entries| - 1];
      assert Collect(init).Success?;
      CollectPosts(init);
    }
  }

  // ---------------------------------------------------------------------
  // Sorting

  /** Newest first: no post's date is less than a later post's date. */
  predicate NewestFirst(posts: seq<Post>)
  {
    forall i, j :: 0 <= i < j < |posts| ==> !Less(posts[i].date, posts[j].date)
  }

  /** Ordered pairwise among `a[..hi]`, leaving out the position `gap`. */
  ghost predicate NewestFirstExcept(s: seq<Post>, hi: int, gap: int)
    requires 0 <= hi <= |s|
  {
    forall p, q :: 0 <= p < q < hi && p != gap && q != gap ==> !Less(s[p].date, s[q].date)
  }

  /** `sort.Slice` with `Date >`: any order with the newest date first; equal dates in no fixed order. */
  method SortNewestFirst(a: array<Post>)
    modifies a
    ensures NewestFirst(a[..])
    ensures multiset(a[..]) == multiset(old(a[..]))
  {
    var i := 0;
    while i < a.Length
      invariant 0 <= i <= a.Length
      invariant NewestFirst(a[..i])
      invariant multiset(a[..]) == multiset(old(a[..]))
    {
      Insert(a, i);
      i := i + 1;
    }
    assert a[..a.Length] == a[..];
  }

  /** Moves `a[i]` down past every strictly older post, so that `a[..i + 1]` is newest first. */
  method Insert(a: array<Post>, i: int)
    requires 0 <= i < a.Length
    requires NewestFirst(a[..i])
    modifies a
    ensures NewestFirst(a[..i + 1])
    ensures multiset(a[..]) == multiset(old(a[..]))
  {
    var j := i;
    while j > 0 && Less(a[j - 1].date, a[j].date)
      invariant 0 <= j <= i
      invariant multiset(a[..]) == multiset(old(a[..]))
      invariant NewestFirstExcept(a[..], i + 1, j)
      invariant forall q :: j < q <= i ==> Less(a[q].date, a[j].date)
    {
      Swap(a, j - 1, j);
      j := j - 1;
    }
    InsertionDone(a[..], i, j);
  }

  /** Exchanges two neighbours. */
  method Swap(a: array<Post>, k: int, l: int)
    requires 0 <= k < l < a.Length && l == k + 1
    modifies a
    ensures a[..] == old(a[..])[k := old(a[l])][l := old(a[k])]
    ensures multiset(a[..]) == multiset(old(a[..]))
  {
    a[k], a[l] := a[l], a[k];
  }

  /** The element that stopped moving sits between an older-or-equal neighbour and strictly older posts. */
  lemma InsertionDone(s: seq<Post>, i: int, j: int)
    requires 0 <= j <= i < |s|
    requires NewestFirstExcept(s, i + 1, j)
    requires j > 0 ==> !Less(s[j - 1].date, s[j].date)
    requires forall q :: j < q <= i ==> Less(s[q].date, s[j].date)
    ensures NewestFirst(s[..i + 1])
  {
    forall p, q | 0 <= p < q < i + 1
      ensures !Less(s[p].date, s[q].date)
    {
      if q == j {
        if p < j - 1 {
          NotLessTransitive(s[p].date, s[j - 1].date, s[j].date);
        }
      } else if p == j {
        LessAsymmetric(s[q].date, s[j].date);
      }
    }
  }

  /** One more entry extends the walk as Collect's last step says. */
  lemma CollectStep(entries: seq<Entry>, i: int)
    requires 0 <= i < |entries|
    ensures var prev, e := Collect(entries[..i]), entries[i];
            Collect(entries[..i + 1]) ==
              if prev.Failure? || !Listed(e) then prev
              else if e.content.None? then Failure(e.path)
              else Success(prev.value + [ListedPost(e, e.content.value)])
  {
    assert entries[..i + 1][..i] == entries[..i];
  }

  /** The walk's callback over every entry: the posts in walk order, or the first read failure. */
  method ReadPosts(entries: seq<Entry>) returns (r: Result<seq<Post>, string>)
    ensures r == Collect(entries)
  {
    var posts: seq<Post> := [];
    var i := 0;
    while i < |entries|
      invariant 0 <= i <= |entries|
      invariant Collect(entries[..i]) == Success(posts)
    {
      var e := entries[i];
      CollectStep(entries, i);
      MarkdownChars(Base(e.path));
      if !e.isDir && IsMarkdown(Base(e.path)) {
        if e.content.None? {
          CollectFailureSticks(entries, i + 1);
          return Failure(e.path);
        }
        var post := ReadPostFile(e.path, e.content.value, e.modTime);
        posts := posts + [post.(content := "")];
      }
      i := i + 1;
    }
    assert entries[..i] == entries;
    return Success(posts);
  }

  /** findMarkdownFiles: the markdown posts newest first, or the first read failure. */
  method ListPosts(entries: seq<Entry>) returns (r: Result<seq<Post>, string>)
    ensures r.Failure? <==> Collect(entries).Failure?
    ensures r.Failure? ==> r == Collect(entries)
    ensures r.Success? ==> && multiset(r.value) == multiset(Collect(entries).value)
                           && NewestFirst(r.value)
  {
    var collected := ReadPosts(entries);
    if collected.Failure? {
      return collected;
    }
    var posts := collected.value;
    var sorted := new Post[|posts|](k requires 0 <= k < |posts| => posts[k]);
    assert sorted[..] == posts;
    SortNewestFirst(sorted);
    r := Success(sorted[..]);
  }
}
