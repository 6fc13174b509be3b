/**
 * The file name handleSave gives a post: `YYYY_MM_slug.md`, where the year
 * and month come from the front-matter date (or the clock) and the slug
 * from the front-matter title.
 */
module Filename {
  import opened Wrappers
  import opened Text
  import opened Dates
  import opened FrontMatter
  import opened Slug

  const Extension := ".md"

  /** The `%s_%s_%s.md` format with year, month and slug. */
  function ComposeName(year: string, month: string, slug: string): (r: string)
    ensures |r| == |year| + |month| + |slug| + 5 && HasSuffix(r, Extension)
  {
    year + "_" + month + "_" + slug + Extension
  }

  /** Reads a name of the shape `YYYY_MM_slug.md` back into year, month and slug. */
  function ParseName(name: string): Option<(string, string, string)>
  {
    if |name| >= 11 && AllDigits(name[..4]) && name[4] == '_' && AllDigits(name[5..7]) && name[7] == '_'
       && HasSuffix(name, Extension)
    then Some((name[..4], name[5..7], name[8..|name| - 3]))
    else None
  }

  /** A composed name with a four-digit year and a two-digit month reads back into its parts. */
  lemma ParseCompose(year: string, month: string, slug: string)
    requires |year| == 4 && AllDigits(year) && |month| == 2 && AllDigits(month)
    ensures ParseName(ComposeName(year, month, slug)) == Some((year, month, slug))
  {
    var n := ComposeName(year, month, slug);
    assert n[..4] == year && n[5..7] == month && n[8..|n| - 3] == slug;
    assert n[|n| - 3..] == Extension;
  }

  /** Every name that reads back is the composition of what it reads back into. */
  lemma ComposeParse(name: string)
    requires ParseName(name).Some?
    ensures var (y, m, s) := ParseName(name).value; ComposeName(y, m, s) == name
  {
    var (y, m, s) := ParseName(name).value;
    assert name == name[..4] + [name[4]] + name[5..7] + [name[7]] + name[8..|name| - 3] + name[|name| - 3..];
  }

  /** The slug of the title the save path reads. */
  function SaveSlug(content: string): string
  {
    Slugify(SaveTitle(Block(Lines(content))))
  }

  /** The name a post's content asks for, with `now` standing in for the clock. */
  function DerivedName(content: string, now: Instant): string
  {
    var (year, month) := SaveYearMonth(Block(Lines(content)), now);
    ComposeName(year, month, SaveSlug(content))
  }

  /** The name a new post gets when its derived name is taken: the slug carries `-YYYYMMDD-HHMMSS`. */
  function StampedName(content: string, now: Instant): string
  {
    var (year, month) := SaveYearMonth(Block(Lines(content)), now);
    ComposeName(year, month, SaveSlug(content) + "-" + Stamp(now))
  }

  /**
   * A derived name is always `YYYY_MM_slug.md` with a month from 01 to 12
   * and a slug of `a-z0-9_-` characters.
   */
  lemma DerivedNameShape(content: string, now: Instant)
    ensures var p := ParseName(DerivedName(content, now));
            && p.Some?
            && 1 <= Value(p.value.1) <= 12
            && p.value.2 == SaveSlug(content)
            && forall i :: 0 <= i < |p.value.2| ==> SlugChar(p.value.2[i])
  {
    var block := Block(Lines(content));
    var (year, month) := SaveYearMonth(block, now);
    SaveYearMonthShape(block, now);
    ParseCompose(year, month, SaveSlug(content));
    SlugAlphabet(SaveTitle(block));
  }

  /** A stamped name has the derived name's year and month and the slug followed by the stamp. */
  lemma StampedNameShape(content: string, now: Instant)
    ensures var p := ParseName(StampedName(content, now));
            var q := ParseName(DerivedName(content, now));
            && p.Some? && q.Some?
            && p.value.0 == q.value.0 && p.value.1 == q.value.1
            && p.value.2 == SaveSlug(content) + "-" + Stamp(now)
  {
    var block := Block(Lines(content));
    var (year, month) := SaveYearMonth(block, now);
    SaveYearMonthShape(block, now);
    ParseCompose(year, month, SaveSlug(content));
    ParseCompose(year, month, SaveSlug(content) + "-" + Stamp(now));
  }

  /** The stamped name is never the derived name: it is sixteen characters longer. */
  lemma StampedNameDiffers(content: string, now: Instant)
    ensures |StampedName(content, now)| == |DerivedName(content, now)| + 16
    ensures StampedName(content, now) != DerivedName(content, now)
  {
    StampShape(now);
  }

  // ---------------------------------------------------------------------
  // The documented example: `title: "First Post"`, `date: 2024-03-01`

  /** Both lines of the example are single, already trimmed lines that are not delimiters. */
  lemma SampleSaveLines()
    ensures var title, date := TitleKey + " " + ("\"" + ("First" + " " + "Post") + "\""), DateKey + " " + "2024-03-01";
            && TrimSpace(title) == title && title != Delimiter && '\n' !in title
            && TrimSpace(date) == date && date != Delimiter && '\n' !in date
            && HasPrefix(title, TitleKey) && HasPrefix(date, DateKey)
  {
    var title, date := TitleKey + " " + ("\"" + ("First" + " " + "Post") + "\""), DateKey + " " + "2024-03-01";
    assert title[0] == 't' && title[|title| - 1] == '"' && date[0] == 'd' && date[|date| - 1] == '1';
    TrimKeepsTrimmed(title, AsciiSpace);
    TrimKeepsTrimmed(date, AsciiSpace);
    assert title[..|TitleKey|] == TitleKey && date[..|DateKey|] == DateKey;
  }

  /** The example's title line gives `First Post`, and its date line gives year 2024, month 03. */
  lemma SampleSaveValues()
    ensures var title, date := TitleKey + " " + ("\"" + ("First" + " " + "Post") + "\""), DateKey + " " + "2024-03-01";
            && TitleValue(title) == "First" + " " + "Post"
            && ResolveDate(SaveDateValue(date)) == Some(("2024", "03"))
  {
    var w := "First" + " " + "Post";
    FieldOfLine(TitleKey, "\"" + w + "\"");
    Unquote(w);
    FieldOfLine(DateKey, "2024-03-01");
    TrimKeepsTrimmed("2024-03-01", Quotes);
    SampleMarchDate();
  }

  /** A new post titled "First Post" and dated 2024-03-01 is named `2024_03_first-post.md`. */
  lemma SampleDerivedName(now: Instant)
    ensures var title, date := TitleKey + " " + ("\"" + ("First" + " " + "Post") + "\""), DateKey + " " + "2024-03-01";
            DerivedName("---\n" + title + "\n" + date + "\n---\n" + "", now) == "2024_03_first-post.md"
  {
    var title, date := TitleKey + " " + ("\"" + ("First" + " " + "Post") + "\""), DateKey + " " + "2024-03-01";
    SampleSaveLines();
    SampleSaveValues();
    TwoFieldsSaved(title, date, "", now);
    SampleFirstPost();
    SampleComposeName();
  }

  /** Year 2024, month 03 and slug `first-post` format as `2024_03_first-post.md`. */
  lemma SampleComposeName()
    ensures ComposeName("2024", "03", "first-post") == "2024_03_first-post.md"
  {
  }
}
