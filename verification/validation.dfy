/** Upload and payload checks shared by the handlers: the image allow-list,
    the extension of an uploaded file name (Go's `filepath.Ext` on a
    slash-separated path), and the `required` rule of the payload validator. */
module Validation {

  /** The four extensions the allow-list admits. */
  const ImageExtensions: set<string> := {".jpg", ".jpeg", ".png", ".webp"}

  predicate IsUpper(c: char) {
    'A' <= c <= 'Z'
  }

  /** The allow-list is a map literal whose lookup of a missing key yields false. */
  predicate IsAllowedExtension(ext: string)
    ensures IsAllowedExtension(ext) <==> ext in ImageExtensions
    ensures IsAllowedExtension(ext) ==> 4 <= |ext| <= 5 && ext[0] == '.'
    ensures IsAllowedExtension(ext) ==> forall i :: 0 <= i < |ext| ==> !IsUpper(ext[i]) && ext[i] != '/'
    ensures IsAllowedExtension(ext) ==> forall i :: 1 <= i < |ext| ==> ext[i] != '.'
  {
    ext == ".jpg" || ext == ".jpeg" || ext == ".png" || ext == ".webp"
  }

  /** A string that `Ext` returns unchanged when it ends a file name: empty, or
      a dot followed by neither dots nor slashes. */
  predicate IsExtension(e: string) {
    e == "" || (e[0] == '.' && forall i :: 1 <= i < |e| ==> e[i] != '.' && e[i] != '/')
  }

  predicate NoDotOrSlash(s: string) {
    forall i :: 0 <= i < |s| ==> s[i] != '.' && s[i] != '/'
  }

  /** The loop of `filepath.Ext`: walk left from position `i` until a slash
      (no extension) or a dot (the extension runs from there to the end).
      Everything right of `i` has already been passed over. */
  function ExtBefore(path: string, i: nat): (r: string)
    requires i <= |path|
    requires forall k :: i <= k < |path| ==> path[k] != '.' && path[k] != '/'
    ensures IsExtension(r)
    ensures r != "" ==> |r| <= |path| && |path| - |r| < i && r == path[|path| - |r|..]
    ensures r == "" ==> forall k :: 0 <= k < |path| && path[k] == '.' ==>
                          exists j :: k < j < i && path[j] == '/'
    decreases i
  {
    if i == 0 then ""
    else if path[i - 1] == '/' then ""
    else if path[i - 1] == '.' then path[i - 1..]
    else ExtBefore(path, i - 1)
  }

  /** The extension of the last path element: from its last dot to the end,
      or empty when that element has no dot. */
  function Ext(path: string): (r: string)
    ensures IsExtension(r)
    ensures r != "" ==> |r| <= |path| && r == path[|path| - |r|..]
    ensures r == "" <==> forall k :: 0 <= k < |path| && path[k] == '.' ==>
                           exists j :: k < j < |path| && path[j] == '/'
  {
    var r := ExtBefore(path, |path|);
    assert r != "" ==> path[|path| - |r|] == r[0] == '.';
    assert r != "" ==> forall j :: |path| - |r| < j < |path| ==> path[j] == r[j - (|path| - |r|)] != '/';
    r
  }

  /** An uploaded file is stored as a fresh identifier (a UUID: hex digits and
      dashes) followed by the extension of the client's file name; the stored
      name has that same extension, so the allow-list verdict carries over. */
  lemma StoredNameKeepsExtension(stem: string, name: string)
    requires NoDotOrSlash(stem)
    ensures Ext(stem + Ext(name)) == Ext(name)
  {
    var e := Ext(name);
    var path := stem + e;
    if e != "" {
      assert path[|stem|] == '.';
      assert forall j :: |stem| < j < |path| ==> path[j] == e[j - |stem|] != '/';
    }
  }

  /** The validator's `required` rule on strings: the names of the fields whose
      value is empty, in declaration order. */
  function MissingFields(fields: seq<(string, string)>): (r: seq<string>)
    ensures |r| <= |fields|
    ensures r == [] <==> forall i :: 0 <= i < |fields| ==> fields[i].1 != ""
    ensures forall n :: n in r <==> exists i :: 0 <= i < |fields| && fields[i].0 == n && fields[i].1 == ""
  {
    if |fields| == 0 then []
    else
      var rest := MissingFields(fields[1..]);
      assert forall i :: 1 <= i < |fields| ==> fields[i] == fields[1..][i - 1];
      if fields[0].1 == "" then [fields[0].0] + rest else rest
  }

  /** The missing fields of a form are those of its first part followed by
      those of the rest, so they are reported in declaration order. */
  lemma {:induction false} MissingFieldsConcat(a: seq<(string, string)>, b: seq<(string, string)>)
    ensures MissingFields(a + b) == MissingFields(a) + MissingFields(b)
  {
    if |a| == 0 {
      assert a + b == b;
    } else {
      assert (a + b)[1..] == a[1..] + b;
      MissingFieldsConcat(a[1..], b);
    }
  }
}
