/** Where uploaded media is stored, and how a class logo's path follows a
    change of slug.  Splitting follows Go's `strings.Split` with a one-character
    separator: n separators give n + 1 parts, empty parts included. */
module Paths {
  import opened Store

  predicate NoSlash(s: string) {
    forall i :: 0 <= i < |s| ==> s[i] != '/'
  }

  function Split(s: string, sep: char): (parts: seq<string>)
    ensures |parts| >= 1
    ensures forall k :: 0 <= k < |parts| ==> sep !in parts[k]
    decreases |s|
  {
    if |s| == 0 then [""]
    else
      var rest := Split(s[1..], sep);
      if s[0] == sep then [""] + rest
      else [[s[0]] + rest[0]] + rest[1..]
  }

  function Join(parts: seq<string>, sep: char): string
    requires |parts| >= 1
  {
    if |parts| == 1 then parts[0]
    else parts[0] + [sep] + Join(parts[1..], sep)
  }

  /** Joining the parts of a split gives back the string. */
  lemma {:induction false} JoinSplit(s: string, sep: char)
    ensures Join(Split(s, sep), sep) == s
    decreases |s|
  {
    if |s| > 0 {
      var rest := Split(s[1..], sep);
      JoinSplit(s[1..], sep);
      if s[0] == sep {
        assert Split(s, sep)[1..] == rest;
      } else {
        var parts := Split(s, sep);
        if |rest| == 1 {
          assert parts == [[s[0]] + rest[0]];
        } else {
          assert parts[1..] == rest[1..];
          assert Join(rest, sep) == rest[0] + [sep] + Join(rest[1..], sep);
          assert s == [s[0]] + s[1..];
        }
      }
    }
  }

  /** Splitting a join of separator-free parts gives back the parts. */
  lemma {:induction false} SplitJoin(parts: seq<string>, sep: char)
    requires |parts| >= 1
    requires forall k :: 0 <= k < |parts| ==> sep !in parts[k]
    ensures Split(Join(parts, sep), sep) == parts
    decreases |parts|, |parts[0]|
  {
    var head := parts[0];
    if |head| == 0 {
      if |parts| > 1 {
        SplitJoin(parts[1..], sep);
        var s := Join(parts, sep);
        assert s == [sep] + Join(parts[1..], sep);
        assert s[1..] == Join(parts[1..], sep);
        assert parts == [""] + parts[1..];
      }
    } else {
      var shorter := [head[1..]] + parts[1..];
      SplitJoin(shorter, sep);
      var s := Join(parts, sep);
      if |parts| == 1 {
        assert s[1..] == head[1..] == Join(shorter, sep);
      } else {
        assert shorter[1..] == parts[1..];
        assert s == [head[0]] + (head[1..] + [sep] + Join(parts[1..], sep));
        assert s[1..] == Join(shorter, sep);
      }
      assert head == [head[0]] + head[1..];
      assert s[0] == head[0] != sep;
      assert Split(s, sep) == [[head[0]] + shorter[0]] + shorter[1..];
    }
  }

  /** Where a class logo is stored: media/classes/<slug>/<file>. */
  function ClassLogoPath(slug: string, file: string): string {
    "media/classes/" + slug + "/" + file
  }

  /** Where a user's avatar is stored: media/user/profile/<username>/<file>. */
  function AvatarPath(username: string, file: string): string {
    "media/user/profile/" + username + "/" + file
  }

  /** A logo path is exactly the four slash-free segments it is built from. */
  lemma LogoPathSegments(slug: string, file: string)
    requires NoSlash(slug) && NoSlash(file)
    ensures Split(ClassLogoPath(slug, file), '/') == ["media", "classes", slug, file]
  {
    var parts := ["media", "classes", slug, file];
    assert Join(parts, '/') == ClassLogoPath(slug, file) by {
      assert Join(parts[3..], '/') == file;
      assert Join(parts[2..], '/') == slug + "/" + file;
      assert Join(parts[1..], '/') == "classes/" + slug + "/" + file;
    }
    assert '/' !in slug && '/' !in file;
    SplitJoin(parts, '/');
  }

  /** The logo path after a rename: split the old path on '/', keep its fourth
      segment as the file name and place it under the new slug.  A missing logo
      (nil dereference) and a path with fewer than four segments (index out of
      range) both panic. */
  function RenameLogo(logo: Option<string>, newSlug: string): (r: Result<string>)
    ensures r.Err? ==> r.failure == Panic
    ensures r.Ok? <==> logo.Some? && |Split(logo.value, '/')| >= 4
    ensures r.Ok? ==> r.value == ClassLogoPath(newSlug, Split(logo.value, '/')[3])
  {
    match logo
    case None => Err(Panic)
    case Some(path) =>
      var s := Split(path, '/');
      if |s| < 4 then Err(Panic) else Ok(ClassLogoPath(newSlug, s[3]))
  }

  /** A logo stored by class creation moves to the same file under the new slug. */
  lemma RenameMovesLogo(oldSlug: string, file: string, newSlug: string)
    requires NoSlash(oldSlug) && NoSlash(file)
    ensures RenameLogo(Some(ClassLogoPath(oldSlug, file)), newSlug) == Ok(ClassLogoPath(newSlug, file))
  {
    LogoPathSegments(oldSlug, file);
  }

  /** Renaming twice lands where renaming once to the last slug does. */
  lemma RenameTwice(oldSlug: string, file: string, s1: string, s2: string)
    requires NoSlash(oldSlug) && NoSlash(file) && NoSlash(s1)
    ensures RenameLogo(Some(ClassLogoPath(oldSlug, file)), s1).Ok?
    ensures RenameLogo(Some(RenameLogo(Some(ClassLogoPath(oldSlug, file)), s1).value), s2)
         == RenameLogo(Some(ClassLogoPath(oldSlug, file)), s2)
  {
    RenameMovesLogo(oldSlug, file, s1);
    RenameMovesLogo(s1, file, s2);
    RenameMovesLogo(oldSlug, file, s2);
  }
}
