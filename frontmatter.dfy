/**
 * The front-matter scan: the text is split on "\n", every line is trimmed,
 * the first line equal to `---` opens the block and the second one ends the
 * scan. Inside the block the listing (findMarkdownFiles, getPost) and the
 * save path (handleSave) read `title:` and `date:` lines, each in its own way.
 */
module FrontMatter {
  import opened Text
  import opened Dates

  const Delimiter := "---"
  const TitleKey := "title:"
  const DateKey := "date:"
  const DefaultTitle := "new-post"

  /** Every line of `ls`, trimmed. */
  function TrimAll(ls: seq<string>): (r: seq<string>)
    ensures |r| == |ls|
    ensures forall i :: 0 <= i < |ls| ==> r[i] == TrimSpace(ls[i])
  {
    if ls == [] then [] else TrimAll(ls[..|ls| - 1]) + [TrimSpace(ls[|ls| - 1])]
  }

  /** The trimmed lines of a document. */
  function Lines(content: string): seq<string>
  {
    TrimAll(Split(content, '\n'))
  }

  /** The first index at or after `from` holding the delimiter, or |ls| when there is none. */
  function FindDelimiter(ls: seq<string>, from: nat): (k: nat)
    requires from <= |ls|
    ensures from <= k <= |ls|
    ensures forall j :: from <= j < k ==> ls[j] != Delimiter
    ensures k < |ls| ==> ls[k] == Delimiter
    decreases |ls| - from
  {
    if from == |ls| || ls[from] == Delimiter then from else FindDelimiter(ls, from + 1)
  }

  /** The front-matter block: the lines strictly between the first and the second delimiter. */
  function Block(ls: seq<string>): seq<string>
  {
    var open := FindDelimiter(ls, 0);
    if open == |ls| then [] else ls[open + 1 .. FindDelimiter(ls, open + 1)]
  }

  /** A delimiter-free stretch `ls[from..k]` ended by a delimiter or by the end is found by FindDelimiter. */
  lemma FindDelimiterAt(ls: seq<string>, from: nat, k: nat)
    requires from <= k <= |ls|
    requires forall j :: from <= j < k ==> ls[j] != Delimiter
    requires k < |ls| ==> ls[k] == Delimiter
    ensures FindDelimiter(ls, from) == k
  {
  }

  /** The block never holds a delimiter line. */
  lemma BlockHasNoDelimiter(ls: seq<string>)
    ensures Delimiter !in Block(ls)
  {
    var open := FindDelimiter(ls, 0);
    if open < |ls| {
      var close := FindDelimiter(ls, open + 1);
      var b := ls[open + 1 .. close];
      forall k | 0 <= k < |b| ensures b[k] != Delimiter {
        assert b[k] == ls[open + 1 + k];
      }
    }
  }

  /**
   * The block is the window between the first delimiter line and the next
   * one, or the end of the document when no second delimiter follows.
   */
  lemma BlockBetween(ls: seq<string>, open: nat, close: nat)
    requires open < close <= |ls| && ls[open] == Delimiter
    requires forall j :: 0 <= j < open ==> ls[j] != Delimiter
    requires forall j :: open < j < close ==> ls[j] != Delimiter
    requires close < |ls| ==> ls[close] == Delimiter
    ensures Block(ls) == ls[open + 1 .. close]
  {
    FindDelimiterAt(ls, 0, open);
    FindDelimiterAt(ls, open + 1, close);
  }

  /** A document without a delimiter line has an empty block. */
  lemma BlockAbsent(ls: seq<string>)
    requires forall j :: 0 <= j < |ls| ==> ls[j] != Delimiter
    ensures Block(ls) == []
  {
    FindDelimiterAt(ls, 0, |ls|);
  }

  /** Lines after the closing delimiter are never read. */
  lemma {:induction false} BlockIgnoresLaterLines(ls: seq<string>, later: seq<string>)
    requires FindDelimiter(ls, 0) < |ls| && FindDelimiter(ls, FindDelimiter(ls, 0) + 1) < |ls|
    ensures Block(ls + later) == Block(ls)
  {
    var open := FindDelimiter(ls, 0);
    var close := FindDelimiter(ls, open + 1);
    var all := ls + later;
    FindDelimiterAt(all, 0, open);
    FindDelimiterAt(all, open + 1, close);
    assert all[open + 1 .. close] == ls[open + 1 .. close];
  }

  /** Searching `earlier + ls` from inside `ls` finds what searching `ls` finds, shifted. */
  lemma FindDelimiterShift(earlier: seq<string>, ls: seq<string>, from: nat)
    requires from <= |ls|
    ensures FindDelimiter(earlier + ls, |earlier| + from) == |earlier| + FindDelimiter(ls, from)
  {
    var all := earlier + ls;
    var n := |earlier|;
    var k := FindDelimiter(ls, from);
    forall j | n + from <= j < n + k ensures all[j] != Delimiter {
      assert all[j] == ls[j - n];
    }
    FindDelimiterAt(all, n + from, n + k);
  }

  /** A line other than the delimiter in front of the document changes nothing. */
  lemma BlockIgnoresLine(line: string, ls: seq<string>)
    requires line != Delimiter
    ensures Block([line] + ls) == Block(ls)
  {
    var all := [line] + ls;
    var open := FindDelimiter(ls, 0);
    FindDelimiterShift([line], ls, 0);
    FindDelimiterAt(all, 0, 1 + open);
    if open < |ls| {
      FindDelimiterShift([line], ls, open + 1);
      var close := FindDelimiter(ls, open + 1);
      assert all[open + 2 .. 1 + close] == ls[open + 1 .. close];
    }
  }

  /** A text that opens with `---`, two lines and `---` splits into those four lines and the rest. */
  lemma SplitTwoLines(a: string, b: string, rest: string)
    requires '\n' !in a && '\n' !in b
    ensures Split("---\n" + a + "\n" + b + "\n---\n" + rest, '\n') == ["---", a, b, "---"] + Split(rest, '\n')
  {
    var r3 := "---" + ['\n'] + rest;
    var r2 := b + ['\n'] + r3;
    var r1 := a + ['\n'] + r2;
    assert "---\n" + a + "\n" + b + "\n---\n" + rest == "---" + ['\n'] + r1;
    SplitAfter("---", r1, '\n');
    SplitAfter(a, r2, '\n');
    SplitAfter(b, r3, '\n');
    SplitAfter("---", rest, '\n');
  }

  /** A text that opens with `---`, two trimmed lines and `---` has exactly those two lines as its block. */
  lemma TwoLineBlock(a: string, b: string, rest: string)
    requires '\n' !in a && '\n' !in b
    requires TrimSpace(a) == a && TrimSpace(b) == b && a != Delimiter && b != Delimiter
    ensures Block(Lines("---\n" + a + "\n" + b + "\n---\n" + rest)) == [a, b]
  {
    SplitTwoLines(a, b, rest);
    var lines := TrimAll(["---", a, b, "---"] + Split(rest, '\n'));
    assert TrimSpace("---") == "---";
    assert lines[0] == Delimiter && lines[1] == a && lines[2] == b && lines[3] == Delimiter;
    BlockBetween(lines, 0, 3);
    assert lines[1..3] == [a, b];
  }

  /** Lines before the opening delimiter are never read. */
  lemma {:induction false} BlockIgnoresEarlierLines(earlier: seq<string>, ls: seq<string>)
    requires Delimiter !in earlier
    ensures Block(earlier + ls) == Block(ls)
  {
    if earlier != [] {
      assert earlier[0] in earlier;
      assert forall l :: l in earlier[1..] ==> l in earlier;
      BlockIgnoresEarlierLines(earlier[1..], ls);
      BlockIgnoresLine(earlier[0], earlier[1..] + ls);
      assert earlier + ls == [earlier[0]] + (earlier[1..] + ls);
    } else {
      assert earlier + ls == ls;
    }
  }

  // ---------------------------------------------------------------------
  // Field values

  /** The text after `key:`, trimmed. */
  function FieldValue(line: string, key: string): string
  {
    TrimSpace(TrimPrefix(line, key))
  }

  /** A title value: trimmed, then stripped of every leading and trailing quote character. */
  function TitleValue(line: string): string
  {
    Trim(FieldValue(line, TitleKey), Quotes)
  }

  /** The date value the save path parses: trimmed, then stripped of quote characters. */
  function SaveDateValue(line: string): string
  {
    Trim(FieldValue(line, DateKey), Quotes)
  }

  /**
   * A title value neither starts nor ends with a quote character, and
   * trimming quotes again changes nothing; whitespace inside the quotes is
   * kept, since the spaces are trimmed before the quotes.
   */
  lemma TitleValueTrimmed(line: string)
    ensures var v := TitleValue(line);
            && (v != "" ==> v[0] !in Quotes && v[|v| - 1] !in Quotes)
            && Trim(v, Quotes) == v
            && |v| <= |FieldValue(line, TitleKey)|
  {
    TrimEnds(FieldValue(line, TitleKey), Quotes);
    TrimIdempotent(FieldValue(line, TitleKey), Quotes);
  }

  // ---------------------------------------------------------------------
  // What the listing reads (findMarkdownFiles and getPost)

  /** The value of the last `title:` line of the block, or "" when there is none. */
  function ListTitle(block: seq<string>): string
  {
    if block == [] then ""
    else if HasPrefix(block[|block| - 1], TitleKey) then TitleValue(block[|block| - 1])
    else ListTitle(block[..|block| - 1])
  }

  /** The value of the last `date:` line of the block, or "" when there is none. */
  function ListDate(block: seq<string>): string
  {
    if block == [] then ""
    else if HasPrefix(block[|block| - 1], DateKey) then FieldValue(block[|block| - 1], DateKey)
    else ListDate(block[..|block| - 1])
  }

  /** No line starts with both keys, so the scan's `else if` between them loses nothing. */
  lemma KeysExclusive(line: string)
    ensures !(HasPrefix(line, TitleKey) && HasPrefix(line, DateKey))
  {
    if HasPrefix(line, TitleKey) {
      assert line[0] == TitleKey[0] == 't';
    }
  }

  /** Within the block, the last `title:` line wins: lines after it without the key change nothing. */
  lemma {:induction false} ListTitleLastWins(block: seq<string>, line: string, after: seq<string>)
    requires HasPrefix(line, TitleKey)
    requires forall l :: l in after ==> !HasPrefix(l, TitleKey)
    ensures ListTitle(block + [line] + after) == TitleValue(line)
  {
    if after == [] {
      assert (block + [line])[..|block|] == block;
    } else {
      var all := block + [line] + after;
      assert all[..|all| - 1] == block + [line] + after[..|after| - 1];
      assert all[|all| - 1] == after[|after| - 1];
      ListTitleLastWins(block, line, after[..|after| - 1]);
    }
  }

  /** A block without a `title:` line gives no title, so the listing falls back to the file name. */
  lemma {:induction false} ListTitleAbsent(block: seq<string>)
    requires forall l :: l in block ==> !HasPrefix(l, TitleKey)
    ensures ListTitle(block) == ""
  {
    if block != [] {
      assert block[|block| - 1] in block;
      assert forall l :: l in block[..|block| - 1] ==> l in block;
      ListTitleAbsent(block[..|block| - 1]);
    }
  }

  /** A block without a `date:` line gives no date, so the listing falls back to the modification day. */
  lemma {:induction false} ListDateAbsent(block: seq<string>)
    requires forall l :: l in block ==> !HasPrefix(l, DateKey)
    ensures ListDate(block) == ""
  {
    if block != [] {
      assert block[|block| - 1] in block;
      assert forall l :: l in block[..|block| - 1] ==> l in block;
      ListDateAbsent(block[..|block| - 1]);
    }
  }

  /** A line `key v`, with `v` not starting or ending in white space, has the field value `v`. */
  lemma FieldOfLine(key: string, v: string)
    requires v != [] && v[0] !in AsciiSpace && v[|v| - 1] !in AsciiSpace
    ensures FieldValue(key + " " + v, key) == v
  {
    var line := key + " " + v;
    assert line[..|key|] == key;
    assert line[|key|..] == " " + v;
    assert (" " + v)[1..] == v;
    assert TrimLeft(" " + v, AsciiSpace) == v;
  }

  /** Surrounding double quotes are stripped from a title that does not itself start or end in a quote. */
  lemma Unquote(w: string)
    requires w != [] && w[0] !in Quotes && w[|w| - 1] !in Quotes
    ensures Trim("\"" + w + "\"", Quotes) == w
  {
    var q := "\"" + w + "\"";
    assert q[1..] == w + "\"";
    assert TrimLeft(q, Quotes) == w + "\"";
    assert (w + "\"")[..|w|] == w;
    assert TrimRight(w + "\"", Quotes) == TrimRight(w, Quotes) == w;
  }

  /** The line `title: "My Title"` gives the title `My Title`. */
  lemma SampleTitleValue()
    ensures TitleValue(TitleKey + " " + ("\"" + "My Title" + "\"")) == "My Title"
  {
    FieldOfLine(TitleKey, "\"" + "My Title" + "\"");
    Unquote("My Title");
  }

  /** The line `date: 2024-01-02` gives the date `2024-01-02`. */
  lemma SampleDateValue()
    ensures FieldValue(DateKey + " " + "2024-01-02", DateKey) == "2024-01-02"
  {
    FieldOfLine(DateKey, "2024-01-02");
  }

  /** Both lines of the listing sample are single, already trimmed lines that are not delimiters. */
  lemma SampleLinesPlain()
    ensures var title, date := TitleKey + " " + ("\"" + "My Title" + "\""), DateKey + " " + "2024-01-02";
            && TrimSpace(title) == title && title != Delimiter && '\n' !in title
            && TrimSpace(date) == date && date != Delimiter && '\n' !in date
  {
    var title, date := TitleKey + " " + ("\"" + "My Title" + "\""), DateKey + " " + "2024-01-02";
    assert title[0] == 't' && title[|title| - 1] == '"' && date[0] == 'd' && date[|date| - 1] == '2';
    TrimKeepsTrimmed(title, AsciiSpace);
    TrimKeepsTrimmed(date, AsciiSpace);
  }

  /** A front matter of one `title:` line and one `date:` line lists exactly their values. */
  lemma TwoFieldsListed(title: string, date: string, rest: string)
    requires HasPrefix(title, TitleKey) && HasPrefix(date, DateKey)
    requires '\n' !in title && '\n' !in date
    requires TrimSpace(title) == title && TrimSpace(date) == date && title != Delimiter && date != Delimiter
    ensures var block := Block(Lines("---\n" + title + "\n" + date + "\n---\n" + rest));
            ListTitle(block) == TitleValue(title) && ListDate(block) == FieldValue(date, DateKey)
  {
    TwoLineBlock(title, date, rest);
    KeysExclusive(date);
    KeysExclusive(title);
    assert [title, date] == [] + [title] + [date] == [title] + [date] + [];
    ListTitleLastWins([], title, [date]);
    ListDateLastWins([title], date, []);
  }

  /**
   * A front matter of one `title:` line with a non-empty value and one
   * `date:` line that parses gives the save path that title, year and month.
   */
  lemma TwoFieldsSaved(title: string, date: string, rest: string, now: Instant)
    requires HasPrefix(title, TitleKey) && TitleValue(title) != ""
    requires HasPrefix(date, DateKey) && ResolveDate(SaveDateValue(date)).Some?
    requires '\n' !in title && '\n' !in date
    requires TrimSpace(title) == title && TrimSpace(date) == date && title != Delimiter && date != Delimiter
    ensures var block := Block(Lines("---\n" + title + "\n" + date + "\n---\n" + rest));
            && SaveTitle(block) == TitleValue(title)
            && SaveYearMonth(block, now) == ResolveDate(SaveDateValue(date)).value
  {
    TwoLineBlock(title, date, rest);
    KeysExclusive(date);
    KeysExclusive(title);
    assert [title, date] == [] + [title] + [date] == [title] + [date] + [];
    SaveTitleLastWins([], title, [date]);
    SaveDateLastWins([title], date, [], now);
  }

  /** The listing reads `title: "My Title"` as `My Title`, quotes stripped, and `date: 2024-01-02` as is. */
  lemma SampleListedFields()
    ensures var title, date := TitleKey + " " + ("\"" + "My Title" + "\""), DateKey + " " + "2024-01-02";
            var block := Block(Lines("---\n" + title + "\n" + date + "\n---\n" + "body"));
            ListTitle(block) == "My Title" && ListDate(block) == "2024-01-02"
  {
    var title, date := TitleKey + " " + ("\"" + "My Title" + "\""), DateKey + " " + "2024-01-02";
    SampleTitleValue();
    SampleDateValue();
    SampleLinesPlain();
    assert title[..|TitleKey|] == TitleKey && date[..|DateKey|] == DateKey;
    TwoFieldsListed(title, date, "body");
  }

  /** Within the block, the last `date:` line wins. */
  lemma {:induction false} ListDateLastWins(block: seq<string>, line: string, after: seq<string>)
    requires HasPrefix(line, DateKey)
    requires forall l :: l in after ==> !HasPrefix(l, DateKey)
    ensures ListDate(block + [line] + after) == FieldValue(line, DateKey)
  {
    if after == [] {
      assert (block + [line])[..|block|] == block;
    } else {
      var all := block + [line] + after;
      assert all[..|all| - 1] == block + [line] + after[..|after| - 1];
      assert all[|all| - 1] == after[|after| - 1];
      ListDateLastWins(block, line, after[..|after| - 1]);
    }
  }

  /** Reading one more block line, as the listing does. */
  lemma ListSnoc(seen: seq<string>, line: string)
    ensures HasPrefix(line, TitleKey) ==> ListTitle(seen + [line]) == TitleValue(line)
    ensures !HasPrefix(line, TitleKey) ==> ListTitle(seen + [line]) == ListTitle(seen)
    ensures HasPrefix(line, DateKey) ==> ListDate(seen + [line]) == FieldValue(line, DateKey)
    ensures !HasPrefix(line, DateKey) ==> ListDate(seen + [line]) == ListDate(seen)
  {
    assert (seen + [line])[..|seen|] == seen;
  }

  /**
   * The block as the scan loop assembles it: `seen` holds the block lines
   * read so far, `inBlock` tells whether the opening delimiter was passed,
   * and the lines from `i` on are still to be read.
   */
  ghost function BlockFrom(ls: seq<string>, i: nat, inBlock: bool, seen: seq<string>): seq<string>
    requires i <= |ls|
    decreases |ls| - i
  {
    if i == |ls| then seen
    else if ls[i] == Delimiter then (if inBlock then seen else BlockFrom(ls, i + 1, true, []))
    else BlockFrom(ls, i + 1, inBlock, if inBlock then seen + [ls[i]] else seen)
  }

  /** Inside the block the scan reads up to the next delimiter or the end. */
  lemma {:induction false} BlockFromInside(ls: seq<string>, i: nat, seen: seq<string>)
    requires i <= |ls|
    ensures BlockFrom(ls, i, true, seen) == seen + ls[i .. FindDelimiter(ls, i)]
    decreases |ls| - i
  {
    if i < |ls| && ls[i] != Delimiter {
      BlockFromInside(ls, i + 1, seen + [ls[i]]);
      assert ls[i .. FindDelimiter(ls, i)] == [ls[i]] + ls[i + 1 .. FindDelimiter(ls, i + 1)];
    }
  }

  /** Before the block the scan skips to the opening delimiter. */
  lemma {:induction false} BlockFromOutside(ls: seq<string>, i: nat)
    requires i <= |ls|
    ensures var open := FindDelimiter(ls, i);
            BlockFrom(ls, i, false, []) == if open == |ls| then [] else BlockFrom(ls, open + 1, true, [])
    decreases |ls| - i
  {
    if i < |ls| && ls[i] != Delimiter {
      BlockFromOutside(ls, i + 1);
    }
  }

  /** Scanning the lines from the start yields exactly the block. */
  lemma BlockFromStart(ls: seq<string>)
    ensures BlockFrom(ls, 0, false, []) == Block(ls)
  {
    BlockFromOutside(ls, 0);
    var open := FindDelimiter(ls, 0);
    if open < |ls| {
      BlockFromInside(ls, open + 1, []);
    }
  }

  /** The scan in findMarkdownFiles and getPost (the loop the two functions share). */
  method ScanFrontMatter(content: string) returns (title: string, date: string)
    ensures title == ListTitle(Block(Lines(content)))
    ensures date == ListDate(Block(Lines(content)))
  {
    var lines := Split(content, '\n');
    ghost var ts := TrimAll(lines);
    BlockFromStart(ts);
    title, date := "", "";
    var inFrontMatter := false;
    ghost var seen: seq<string> := [];
    var i := 0;
    while i < |lines|
      invariant 0 <= i <= |lines|
      invariant BlockFrom(ts, i, inFrontMatter, seen) == Block(ts)
      invariant !inFrontMatter ==> seen == []
      invariant title == ListTitle(seen) && date == ListDate(seen)
    {
      var line := TrimSpace(lines[i]);
      assert line == ts[i];
      if line == Delimiter {
        if !inFrontMatter {
          inFrontMatter := true;
          seen := [];
        } else {
          break;
        }
      } else if inFrontMatter {
        title, date := ScanField(line, title, date, seen);
        seen := seen + [line];
      }
      i := i + 1;
    }
  }

  /** One front-matter line of the listing's scan: a `title:` or `date:` line replaces that field. */
  method ScanField(line: string, title: string, date: string, ghost seen: seq<string>) returns (title': string, date': string)
    requires title == ListTitle(seen) && date == ListDate(seen)
    ensures title' == ListTitle(seen + [line]) && date' == ListDate(seen + [line])
  {
    ListSnoc(seen, line);
    KeysExclusive(line);
    title', date' := title, date;
    if HasPrefix(line, TitleKey) {
      title' := TitleValue(line);
    } else if HasPrefix(line, DateKey) {
      date' := FieldValue(line, DateKey);
    }
  }

  // ---------------------------------------------------------------------
  // What the save path reads (handleSave)

  /** The last non-empty title value of the block, or "new-post". */
  function SaveTitle(block: seq<string>): string
  {
    if block == [] then DefaultTitle
    else if HasPrefix(block[|block| - 1], TitleKey) && TitleValue(block[|block| - 1]) != "" then
      TitleValue(block[|block| - 1])
    else SaveTitle(block[..|block| - 1])
  }

  /** Year and month of the last `date:` line whose value parses, or those of `now`. */
  function SaveYearMonth(block: seq<string>, now: Instant): (string, string)
  {
    if block == [] then (YearText(now), MonthText(now))
    else if HasPrefix(block[|block| - 1], DateKey) && ResolveDate(SaveDateValue(block[|block| - 1])).Some? then
      ResolveDate(SaveDateValue(block[|block| - 1])).value
    else SaveYearMonth(block[..|block| - 1], now)
  }

  /** The save path's title is never empty. */
  lemma {:induction false} SaveTitleNonEmpty(block: seq<string>)
    ensures SaveTitle(block) != ""
  {
    if block != [] {
      SaveTitleNonEmpty(block[..|block| - 1]);
    }
  }

  /** The save path's year and month are always four and two digits, the month 01 to 12. */
  lemma {:induction false} SaveYearMonthShape(block: seq<string>, now: Instant)
    ensures var (y, m) := SaveYearMonth(block, now);
            |y| == 4 && AllDigits(y) && |m| == 2 && AllDigits(m) && 1 <= Value(m) <= 12
  {
    if block == [] {
      PadValue(now.month, 2);
    } else if !(HasPrefix(block[|block| - 1], DateKey) && ResolveDate(SaveDateValue(block[|block| - 1])).Some?) {
      SaveYearMonthShape(block[..|block| - 1], now);
    }
  }

  /** A block without a non-empty title value leaves the title "new-post". */
  lemma {:induction false} SaveTitleDefault(block: seq<string>)
    requires forall l :: l in block && HasPrefix(l, TitleKey) ==> TitleValue(l) == ""
    ensures SaveTitle(block) == DefaultTitle
  {
    if block != [] {
      assert block[|block| - 1] in block;
      assert forall l :: l in block[..|block| - 1] ==> l in block;
      SaveTitleDefault(block[..|block| - 1]);
    }
  }

  /** Within the block, the last `title:` line with a non-empty value wins. */
  lemma {:induction false} SaveTitleLastWins(block: seq<string>, line: string, after: seq<string>)
    requires HasPrefix(line, TitleKey) && TitleValue(line) != ""
    requires forall l :: l in after && HasPrefix(l, TitleKey) ==> TitleValue(l) == ""
    ensures SaveTitle(block + [line] + after) == TitleValue(line)
  {
    if after == [] {
      assert (block + [line])[..|block|] == block;
    } else {
      var all := block + [line] + after;
      assert all[..|all| - 1] == block + [line] + after[..|after| - 1];
      assert all[|all| - 1] == after[|after| - 1];
      assert after[|after| - 1] in after;
      assert forall l :: l in after[..|after| - 1] ==> l in after;
      SaveTitleLastWins(block, line, after[..|after| - 1]);
    }
  }

  /** Within the block, the last `date:` line whose value parses gives the year and month. */
  lemma {:induction false} SaveDateLastWins(block: seq<string>, line: string, after: seq<string>, now: Instant)
    requires HasPrefix(line, DateKey) && ResolveDate(SaveDateValue(line)).Some?
    requires forall l :: l in after && HasPrefix(l, DateKey) ==> ResolveDate(SaveDateValue(l)).None?
    ensures SaveYearMonth(block + [line] + after, now) == ResolveDate(SaveDateValue(line)).value
  {
    if after == [] {
      assert (block + [line])[..|block|] == block;
    } else {
      var all := block + [line] + after;
      assert all[..|all| - 1] == block + [line] + after[..|after| - 1];
      assert all[|all| - 1] == after[|after| - 1];
      assert after[|after| - 1] in after;
      assert forall l :: l in after[..|after| - 1] ==> l in after;
      SaveDateLastWins(block, line, after[..|after| - 1], now);
    }
  }

  /** A block without a parseable date leaves the year and month of `now`. */
  lemma {:induction false} SaveYearMonthFallsBack(block: seq<string>, now: Instant)
    requires forall l :: l in block && HasPrefix(l, DateKey) ==> ResolveDate(SaveDateValue(l)).None?
    ensures SaveYearMonth(block, now) == (YearText(now), MonthText(now))
  {
    if block != [] {
      assert block[|block| - 1] in block;
      assert forall l :: l in block[..|block| - 1] ==> l in block;
      SaveYearMonthFallsBack(block[..|block| - 1], now);
    }
  }

  /** Reading one more block line, as the save path does. */
  lemma SaveSnoc(seen: seq<string>, line: string, now: Instant)
    ensures HasPrefix(line, TitleKey) && TitleValue(line) != "" ==> SaveTitle(seen + [line]) == TitleValue(line)
    ensures !(HasPrefix(line, TitleKey) && TitleValue(line) != "") ==> SaveTitle(seen + [line]) == SaveTitle(seen)
    ensures HasPrefix(line, DateKey) && ResolveDate(SaveDateValue(line)).Some? ==>
              SaveYearMonth(seen + [line], now) == ResolveDate(SaveDateValue(line)).value
    ensures !(HasPrefix(line, DateKey) && ResolveDate(SaveDateValue(line)).Some?) ==>
              SaveYearMonth(seen + [line], now) == SaveYearMonth(seen, now)
  {
    assert (seen + [line])[..|seen|] == seen;
  }

  /** The scan in handleSave: title defaults to "new-post", year and month to `now`. */
  method ScanForSave(content: string, now: Instant) returns (title: string, year: string, month: string)
    ensures title == SaveTitle(Block(Lines(content)))
    ensures (year, month) == SaveYearMonth(Block(Lines(content)), now)
  {
    title := DefaultTitle;
    year, month := YearText(now), MonthText(now);
    var lines := Split(content, '\n');
    ghost var ts := TrimAll(lines);
    BlockFromStart(ts);
    var inFrontMatter := false;
    ghost var seen: seq<string> := [];
    var i := 0;
    while i < |lines|
      invariant 0 <= i <= |lines|
      invariant BlockFrom(ts, i, inFrontMatter, seen) == Block(ts)
      invariant !inFrontMatter ==> seen == []
      invariant title == SaveTitle(seen) && (year, month) == SaveYearMonth(seen, now)
    {
      var line := TrimSpace(lines[i]);
      assert line == ts[i];
      if line == Delimiter {
        if !inFrontMatter {
          inFrontMatter := true;
          seen := [];
        } else {
          break;
        }
      } else {
        if inFrontMatter {
          SaveSnoc(seen, line, now);
          seen := seen + [line];
        }
        if inFrontMatter && HasPrefix(line, TitleKey) {
          var titleValue := TitleValue(line);
          if titleValue != "" {
            title := titleValue;
          }
        }
        if inFrontMatter && HasPrefix(line, DateKey) {
          var dateValue := SaveDateValue(line);
          var parsed := ResolveDate(dateValue);
          if parsed.Some? {
            year, month := parsed.value.0, parsed.value.1;
          }
        }
      }
      i := i + 1;
    }
  }
}
