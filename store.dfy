/**
 * The blog's content directory as a map from relative path to text, and the
 * operations on it: savePost, the rename, getPost, and the save handler's
 * decision of which file a post is written to.
 */
module Store {
  import opened Wrappers
  import opened Text
  import opened Dates
  import opened FrontMatter
  import opened Slug
  import opened Filename
  import opened Posts

  /** The save handler's answer. */
  datatype SaveOutcome =
    | Rejected
      // "Missing required fields": the content was empty and nothing was written.
    | Saved(path: string, duplicate: bool)
      // The post was written to `path`; `duplicate` when "Duplicated path name"
      // was reported first (the write still happens).

  /** What a save answers and the files it leaves. */
  datatype SaveEffect = SaveEffect(outcome: SaveOutcome, files: map<string, string>)

  /**
   * The save handler's choice of file, given the name the content asks for
   * and the stamped alternative: reject empty content; a new post (empty
   * path) goes to `name`, or to `stamped` when `name` is taken; an existing
   * post whose derived name differs is renamed to it when that name is free
   * and its old file exists, and otherwise stays at its old path.
   */
  function SaveTo(files: map<string, string>, path: string, content: string, name: string, stamped: string): (r: SaveEffect)
    ensures r.outcome.Saved? ==> r.outcome.path in {path, name, stamped}
    ensures r.outcome.Saved? && r.outcome.duplicate ==> path != "" && path != name && name in files
  {
    if content == "" then SaveEffect(Rejected, files)
    else if path == "" then
      var target := if name in files then stamped else name;
      SaveEffect(Saved(target, false), files[target := content])
    else if path == name then SaveEffect(Saved(path, false), files[path := content])
    else if name in files then SaveEffect(Saved(path, true), files[path := content])
    else if path in files then SaveEffect(Saved(name, false), (files - {path})[name := content])
    else SaveEffect(Saved(path, false), files[path := content])
  }

  /** The save handler on `files`, with `now` standing in for both clock reads. */
  function SaveSpec(files: map<string, string>, path: string, content: string, now: Instant): (r: SaveEffect)
    ensures r.outcome.Saved? && r.outcome.path != path ==> ParseName(r.outcome.path).Some?
  {
    DerivedNameShape(content, now);
    StampedNameShape(content, now);
    SaveTo(files, path, content, DerivedName(content, now), StampedName(content, now))
  }

  class PostStore {
    /** The files under the content directory, by path relative to it. */
    var files: map<string, string>

    constructor (initial: map<string, string>)
      ensures files == initial
    {
      files := initial;
    }

    /** savePost: creates or overwrites the file at `path`. */
    method WritePost(path: string, content: string)
      modifies this
      ensures files == old(files)[path := content]
    {
      files := files[path := content];
    }

    /** `os.Rename`: succeeds exactly when `from` exists, and then the file lives at `to` instead. */
    method Rename(from: string, to: string) returns (ok: bool)
      modifies this
      ensures ok <==> from in old(files)
      ensures ok ==> files == (old(files) - {from})[to := old(files)[from]]
      ensures !ok ==> files == old(files)
    {
      if from in files {
        files := (files - {from})[to := files[from]];
        ok := true;
      } else {
        ok := false;
      }
    }

    /** handleSave after the form is read: derive the names, then pick the file and write it. */
    method Save(path: string, content: string, now: Instant) returns (outcome: SaveOutcome)
      modifies this
      ensures SaveEffect(outcome, files) == SaveSpec(old(files), path, content, now)
    {
      if content == "" {
        return Rejected;
      }
      var title, year, month := ScanForSave(content, now);
      var slug := Slugify(title);
      outcome := Place(path, content, ComposeName(year, month, slug), ComposeName(year, month, slug + "-" + Stamp(now)));
    }

    /**
     * The rest of handleSave: a new post goes to `name` unless that file
     * exists, then to `stamped`; an existing post is renamed to `name` when
     * it differs and is free, and is written where it ends up.
     */
    method Place(path: string, content: string, name: string, stamped: string) returns (outcome: SaveOutcome)
      requires content != ""
      modifies this
      ensures SaveEffect(outcome, files) == SaveTo(old(files), path, content, name, stamped)
    {
      var target := path;
      var duplicate := false;
      if path == "" {
        target := if name in files then stamped else name;
      } else if path != name {
        if name !in files {
          var ok := Rename(path, name);
          if ok {
            target := name;
          }
        } else {
          duplicate := true;
        }
      }
      WritePost(target, content);
      outcome := Saved(target, duplicate);
    }

    /** getPost: the post at `path` with its title and date, or a failure when there is no such file. */
    method GetPost(path: string, modTime: Instant) returns (r: Result<Post, string>)
      ensures r.Failure? <==> path !in files
      ensures r.Success? ==> r.value == ReadPost(path, files[path], modTime)
    {
      if path !in files {
        return Failure(path);
      }
      var post := ReadPostFile(path, files[path], modTime);
      return Success(post);
    }
  }

  // ---------------------------------------------------------------------
  // Properties of a save

  /** A save is rejected exactly when the content is empty, and a rejected save changes no file. */
  lemma SaveRejectsEmpty(files: map<string, string>, path: string, content: string, name: string, stamped: string)
    ensures var e := SaveTo(files, path, content, name, stamped);
            && (e.outcome.Rejected? <==> content == "")
            && (e.outcome.Rejected? ==> e.files == files)
  {
  }

  /** Every accepted save leaves the content at the path it reports. */
  lemma SaveStoresContent(files: map<string, string>, path: string, content: string, name: string, stamped: string)
    requires content != ""
    ensures var e := SaveTo(files, path, content, name, stamped);
            e.outcome.Saved? && e.outcome.path in e.files && e.files[e.outcome.path] == content
  {
  }

  /**
   * A save writes one file and may remove the old path of a renamed post;
   * every other file keeps its content and no other file appears.
   */
  lemma SaveTouchesOnly(files: map<string, string>, path: string, content: string, name: string, stamped: string)
    requires content != ""
    ensures var e := SaveTo(files, path, content, name, stamped);
            && e.files.Keys <= files.Keys + {e.outcome.path}
            && forall k :: k in files && k != path && k != e.outcome.path ==> k in e.files && e.files[k] == files[k]
  {
  }

  /** A save never lowers the number of files, and adds at most one. */
  lemma SaveFileCount(files: map<string, string>, path: string, content: string, name: string, stamped: string)
    ensures var e := SaveTo(files, path, content, name, stamped);
            |files| <= |e.files| <= |files| + 1
  {
    if content != "" && path != "" && path != name && name !in files && path in files {
      var rest := files - {path};
      assert rest.Keys == files.Keys - {path};
      assert |rest.Keys| == |files.Keys| - 1;
    }
  }

  /**
   * A new post goes to its derived name when that is free; when it is
   * taken, the file there is kept and the post goes to the stamped name.
   */
  lemma SaveNewPost(files: map<string, string>, content: string, now: Instant)
    requires content != ""
    ensures var e, name := SaveSpec(files, "", content, now), DerivedName(content, now);
            && (name !in files ==> e.outcome == Saved(name, false) && e.files == files[name := content])
            && (name in files ==> && e.outcome == Saved(StampedName(content, now), false)
                                  && name in e.files && e.files[name] == files[name])
  {
    StampedNameDiffers(content, now);
  }

  /**
   * An existing post that already sits at its derived name is overwritten in
   * place: no rename, no duplicate, and no other file changes.
   */
  lemma SaveInPlace(files: map<string, string>, path: string, content: string, name: string, stamped: string)
    requires content != "" && path != "" && path == name
    ensures SaveTo(files, path, content, name, stamped) == SaveEffect(Saved(path, false), files[path := content])
  {
  }

  /**
   * The stamped name is not checked in turn: when it is taken as well, that
   * file is overwritten.
   */
  lemma SaveStampedOverwrites(files: map<string, string>, content: string, name: string, stamped: string)
    requires content != ""
    requires name in files && stamped in files
    ensures var e := SaveTo(files, "", content, name, stamped);
            e.files[stamped] == content && |e.files| == |files|
  {
  }

  /**
   * An existing post whose derived name is free and whose file exists is
   * renamed: the old path disappears and the derived name holds the content.
   */
  lemma SaveRenames(files: map<string, string>, path: string, content: string, name: string, stamped: string)
    requires content != "" && path != ""
    requires path != name && name !in files && path in files
    ensures var e := SaveTo(files, path, content, name, stamped);
            && e.outcome == Saved(name, false)
            && path !in e.files && e.files[name] == content
            && |e.files| == |files|
  {
    SaveFileCount(files, path, content, name, stamped);
  }

  /**
   * When the derived name of an existing post is already taken by another
   * file, the duplicate is reported, that file is left alone, and the
   * content is still written to the post's old path.
   */
  lemma SaveConflict(files: map<string, string>, path: string, content: string, name: string, stamped: string)
    requires content != "" && path != ""
    requires path != name && name in files
    ensures var e := SaveTo(files, path, content, name, stamped);
            && e.outcome == Saved(path, true)
            && e.files[name] == files[name] && e.files[path] == content
  {
  }

  /**
   * When the old path does not exist the rename fails and the content is
   * written to the old path, creating it there.
   */
  lemma SaveRenameFails(files: map<string, string>, path: string, content: string, name: string, stamped: string)
    requires content != "" && path != ""
    requires path != name && name !in files && path !in files
    ensures var e := SaveTo(files, path, content, name, stamped);
            e.outcome == Saved(path, false) && e.files == files[path := content]
  {
  }

  /**
   * Saving the same content again at the path a save reported changes no
   * file, and reports a duplicate exactly when the post does not sit at its
   * derived name (a stamped post, or one whose rename was refused); after a
   * failed rename, though, the second save performs the rename the first
   * one could not.
   */
  lemma SaveAgain(files: map<string, string>, path: string, content: string, name: string, stamped: string)
    requires content != "" && name != "" && stamped != "" && stamped != name
    ensures var e := SaveTo(files, path, content, name, stamped);
            var again := SaveTo(e.files, e.outcome.path, content, name, stamped);
            var renameFailed := path != "" && path != name && name !in files && path !in files;
            && (!renameFailed ==> again.files == e.files
                                  && again.outcome == Saved(e.outcome.path, e.outcome.path != name))
            && (renameFailed ==> again.outcome == Saved(name, false) && path !in again.files)
  {
    var e := SaveTo(files, path, content, name, stamped);
    var t := e.outcome.path;
    if !(path != "" && path != name && name !in files && path !in files) {
      assert e.files[t := content] == e.files;
    }
  }

  /**
   * The documented example: a new post titled "First Post" and dated
   * 2024-03-01 is saved as `2024_03_first-post.md` when no such file exists.
   */
  lemma SampleSaveNewPost(files: map<string, string>, now: Instant)
    requires "2024_03_first-post.md" !in files
    ensures var title, date := TitleKey + " " + ("\"" + ("First" + " " + "Post") + "\""), DateKey + " " + "2024-03-01";
            var content := "---\n" + title + "\n" + date + "\n---\n" + "";
            SaveSpec(files, "", content, now)
              == SaveEffect(Saved("2024_03_first-post.md", false), files["2024_03_first-post.md" := content])
  {
    var title, date := TitleKey + " " + ("\"" + ("First" + " " + "Post") + "\""), DateKey + " " + "2024-03-01";
    var content := "---\n" + title + "\n" + date + "\n---\n" + "";
    SampleDerivedName(now);
    assert content[0] == '-';
    SaveNewPost(files, content, now);
  }
}
