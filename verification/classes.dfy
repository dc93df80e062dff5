/** Creating, updating and deleting a class.  Creation and deletion are for
    administrators; an update is for a mentor of the class who is not of the
    MEMBER type.  An update applies its fields one after another and saves after
    each, so a later failure leaves the earlier fields saved. */
module Classes {
  import opened Store
  import opened Validation
  import opened Paths

  /** The multipart form of a class creation or update; `logo` is the client's
      file name of the uploaded logo, if any. */
  datatype ClassForm = ClassForm(title: string, description: string, logo: Option<string>, isActive: bool)

  /** What a creation leaves behind: its failure if any, the files written to
      the media directory, and the class table. */
  datatype Creation = Creation(failure: Option<Failure>, uploads: seq<string>, classes: seq<Class>)

  predicate IsAdmin(caller: Option<User>) {
    caller.Some? && caller.value.kind == Admin
  }

  function RequiredClassFields(form: ClassForm): (r: seq<string>)
    ensures r == [] <==> form.title != "" && form.description != "" && form.logo.Some?
  {
    var fields := [("Title", form.title), ("Description", form.description)];
    assert fields[1].1 == form.description;
    MissingFields(fields) + (if form.logo.None? then ["Logo"] else [])
  }

  /** The unique indexes on title and slug; deleted rows still hold their keys. */
  predicate Clashes(classes: seq<Class>, title: string, slug: string) {
    exists i :: 0 <= i < |classes| && (classes[i].title == title || classes[i].slug == slug)
  }

  /** Class creation.  `makeSlug` stands for the slug library, `fileId` for the
      fresh UUID naming the stored logo, `newId` for the key the database assigns. */
  function CreateClass(classes: seq<Class>, caller: Option<User>, form: ClassForm,
                       makeSlug: string -> string, fileId: string, newId: int): (r: Creation)
    ensures caller.None? ==> r == Creation(Some(Unauthenticated), [], classes)
    ensures !IsAdmin(caller) ==> r.uploads == [] && r.classes == classes
    ensures caller.Some? && !IsAdmin(caller) ==> r.failure == Some(Forbidden)
    ensures r.failure == Some(BadExtension) <==>
              IsAdmin(caller) && RequiredClassFields(form) == [] && !IsAllowedExtension(Ext(form.logo.value))
    ensures r.failure == Some(BadExtension) ==> r.uploads == [] && r.classes == classes
    ensures IsAdmin(caller) && RequiredClassFields(form) != [] ==>
              r == Creation(Some(Invalid(RequiredClassFields(form))), [], classes)
    ensures IsAdmin(caller) && RequiredClassFields(form) == [] && IsAllowedExtension(Ext(form.logo.value)) ==>
              && |r.uploads| == 1
              && (r.failure.None? <==> !Clashes(classes, form.title, makeSlug(form.title)))
              && (r.failure.Some? ==> r.failure == Some(Conflict) && r.classes == classes)
    ensures r.uploads != [] ==> IsAdmin(caller) && form.logo.Some? && IsAllowedExtension(Ext(form.logo.value))
    ensures r.uploads != [] ==>
              r.uploads == [ClassLogoPath(makeSlug(form.title), fileId + Ext(form.logo.value))]
    ensures r.failure.None? <==> r.classes != classes
    ensures r.failure.None? ==>
              && |r.uploads| == 1
              && r.classes == classes + [Class(newId, form.title, makeSlug(form.title), form.description,
                                            Some(r.uploads[0]), form.isActive, [], [], false)]
  {
    if caller.None? then Creation(Some(Unauthenticated), [], classes)
    else if caller.value.kind != Admin then Creation(Some(Forbidden), [], classes)
    else if RequiredClassFields(form) != [] then Creation(Some(Invalid(RequiredClassFields(form))), [], classes)
    else
      var slug := makeSlug(form.title);
      var ext := Ext(form.logo.value);
      if !IsAllowedExtension(ext) then Creation(Some(BadExtension), [], classes)
      else
        var destination := ClassLogoPath(slug, fileId + ext);
        if Clashes(classes, form.title, slug) then Creation(Some(Conflict), [destination], classes)
        else Creation(None, [destination], classes + [Class(newId, form.title, slug, form.description,
                                                             Some(destination), form.isActive, [], [], false)])
  }

  /** A created class can be found by its slug, with its logo stored under it. */
  lemma CreatedClassIsFound(classes: seq<Class>, caller: Option<User>, form: ClassForm,
                            makeSlug: string -> string, fileId: string, newId: int)
    requires CreateClass(classes, caller, form, makeSlug, fileId, newId).failure.None?
    ensures var r := CreateClass(classes, caller, form, makeSlug, fileId, newId);
            var k := ClassBySlug(r.classes, makeSlug(form.title));
            k.Some? && r.classes[k.value].logo == Some(ClassLogoPath(makeSlug(form.title), fileId + Ext(form.logo.value)))
  {
    var r := CreateClass(classes, caller, form, makeSlug, fileId, newId);
    assert !Clashes(classes, form.title, makeSlug(form.title));
    assert r.classes[|classes|].slug == makeSlug(form.title);
  }

  /** A logo stored at creation still names the same file after the class is
      renamed: the stored name has no slash, so it is the fourth segment. */
  lemma CreatedLogoSurvivesRename(caller: Option<User>, classes: seq<Class>, form: ClassForm,
                                  makeSlug: string -> string, fileId: string, newId: int, newSlug: string)
    requires NoSlash(makeSlug(form.title)) && NoDotOrSlash(fileId)
    requires CreateClass(classes, caller, form, makeSlug, fileId, newId).uploads != []
    ensures var file := fileId + Ext(form.logo.value);
            RenameLogo(Some(CreateClass(classes, caller, form, makeSlug, fileId, newId).uploads[0]), newSlug)
              == Ok(ClassLogoPath(newSlug, file))
  {
    var e := Ext(form.logo.value);
    StoredNameHasNoSlash(fileId, form.logo.value);
    RenameMovesLogo(makeSlug(form.title), fileId + e, newSlug);
  }

  /** A stored file name, a UUID followed by the client name's extension, has
      no slash. */
  lemma StoredNameHasNoSlash(fileId: string, name: string)
    requires NoDotOrSlash(fileId)
    ensures NoSlash(fileId + Ext(name))
  {
    var e := Ext(name);
    assert forall i :: 0 <= i < |e| ==> e[i] != '/';
    forall i | 0 <= i < |fileId + e|
      ensures (fileId + e)[i] != '/'
    {
      if i >= |fileId| {
        assert (fileId + e)[i] == e[i - |fileId|];
      }
    }
  }

  /** The update gate: the caller is a mentor of the class and not of the MEMBER
      type (any other type value, administrators included, may pass). */
  predicate MayUpdate(cls: Class, caller: User) {
    caller.username in cls.mentors && caller.kind != Member
  }

  datatype UpdateReply =
    | Rejected(failure: Failure)                 // refused before anything was saved
    | Stopped(failure: Failure, saved: Class)    // failed after some fields may have been saved
    | Updated(cls: Class)

  /** A new title renames the class, re-derives its slug and moves the logo
      under the new slug. */
  function Retitle(cls: Class, title: string, makeSlug: string -> string): (r: Result<Class>)
    ensures title == "" ==> r == Ok(cls)
    ensures title != "" && r.Ok? ==>
              && RenameLogo(cls.logo, makeSlug(title)).Ok?
              && r.value == cls.(title := title, slug := makeSlug(title),
                              logo := Some(RenameLogo(cls.logo, makeSlug(title)).value))
    ensures title != "" ==> (r.Err? <==> RenameLogo(cls.logo, makeSlug(title)).Err?)
    ensures r.Err? ==> r.failure == Panic
  {
    if title == "" then Ok(cls)
    else
      var slug := makeSlug(title);
      match RenameLogo(cls.logo, slug)
      case Err(e) => Err(e)
      case Ok(path) => Ok(cls.(title := title, slug := slug, logo := Some(path)))
  }

  /** A new logo replaces the old one (whose file is removed first, which panics
      on a class without a logo) under the class's current slug. */
  function Relogo(cls: Class, upload: Option<string>, fileId: string): (r: Result<Class>)
    ensures upload.None? ==> r == Ok(cls)
    ensures upload.Some? && cls.logo.None? ==> r == Err(Panic)
    ensures upload.Some? && cls.logo.Some? && !IsAllowedExtension(Ext(upload.value)) ==> r == Err(BadExtension)
    ensures upload.Some? && cls.logo.Some? && IsAllowedExtension(Ext(upload.value)) ==> r.Ok?
    ensures upload.Some? && r.Ok? ==>
              IsAllowedExtension(Ext(upload.value)) &&
              r.value == cls.(logo := Some(ClassLogoPath(cls.slug, fileId + Ext(upload.value))))
  {
    match upload
    case None => Ok(cls)
    case Some(name) =>
      if cls.logo.None? then Err(Panic)
      else if !IsAllowedExtension(Ext(name)) then Err(BadExtension)
      else Ok(cls.(logo := Some(ClassLogoPath(cls.slug, fileId + Ext(name)))))
  }

  /** The class update handler. */
  function UpdateClass(classes: seq<Class>, slug: string, caller: Option<User>, form: ClassForm,
                       makeSlug: string -> string, fileId: string): (r: UpdateReply)
    ensures caller.None? ==> r == Rejected(Unauthenticated)
    ensures caller.Some? && ClassBySlug(classes, slug).None? ==> r == Rejected(NotFound(slug))
    ensures caller.Some? && ClassBySlug(classes, slug).Some? ==>
              (r == Rejected(Forbidden) <==> !MayUpdate(classes[ClassBySlug(classes, slug).value], caller.value))
    ensures r.Stopped? ==> r.failure == Panic || r.failure == BadExtension
    ensures r.Updated? <==>
              && caller.Some? && ClassBySlug(classes, slug).Some?
              && var before := classes[ClassBySlug(classes, slug).value];
                 && MayUpdate(before, caller.value)
                 && (form.title != "" ==> RenameLogo(before.logo, makeSlug(form.title)).Ok?)
                 && (form.logo.Some? ==> (form.title != "" || before.logo.Some?)
                                         && IsAllowedExtension(Ext(form.logo.value)))
    ensures r.Stopped? && r.failure == Panic <==>
              && caller.Some? && ClassBySlug(classes, slug).Some?
              && var before := classes[ClassBySlug(classes, slug).value];
                 && MayUpdate(before, caller.value)
                 && form.title == "" && form.logo.Some? && before.logo.None?
    ensures r.Updated? ==>
              var before := classes[ClassBySlug(classes, slug).value];
              && r.cls.id == before.id && r.cls.mentors == before.mentors && r.cls.members == before.members
              && r.cls.deleted == before.deleted
              && r.cls.title == (if form.title != "" then form.title else before.title)
              && r.cls.slug == (if form.title != "" then makeSlug(form.title) else before.slug)
              && r.cls.description == (if form.description != "" then form.description else before.description)
              && r.cls.isActive == form.isActive
              && (form.logo.Some? ==> r.cls.logo == Some(ClassLogoPath(r.cls.slug, fileId + Ext(form.logo.value))))
              && (form.logo.None? && form.title != "" ==>
                    RenameLogo(before.logo, r.cls.slug).Ok? && r.cls.logo == Some(RenameLogo(before.logo, r.cls.slug).value))
              && (form.logo.None? && form.title == "" ==> r.cls.logo == before.logo)
    ensures r.Rejected? && r.failure == Panic <==>
              && caller.Some? && ClassBySlug(classes, slug).Some?
              && MayUpdate(classes[ClassBySlug(classes, slug).value], caller.value)
              && form.title != ""
              && RenameLogo(classes[ClassBySlug(classes, slug).value].logo, makeSlug(form.title)).Err?
    ensures r.Stopped? && r.failure == BadExtension <==>
              && caller.Some? && ClassBySlug(classes, slug).Some?
              && var before := classes[ClassBySlug(classes, slug).value];
                 && MayUpdate(before, caller.value)
                 && (form.title != "" ==> RenameLogo(before.logo, makeSlug(form.title)).Ok?)
                 && form.logo.Some? && (form.title != "" || before.logo.Some?)
                 && !IsAllowedExtension(Ext(form.logo.value))
    ensures r.Stopped? ==>
              var before := classes[ClassBySlug(classes, slug).value];
              && (form.title != "" ==> RenameLogo(before.logo, makeSlug(form.title)).Ok?)
              && r.saved == before.(title := if form.title != "" then form.title else before.title,
                                    slug := if form.title != "" then makeSlug(form.title) else before.slug,
                                    description := if form.description != "" then form.description
                                                   else before.description,
                                    logo := if form.title != "" then Some(RenameLogo(before.logo, makeSlug(form.title)).value)
                                            else before.logo)
  {
    if caller.None? then Rejected(Unauthenticated)
    else match ClassBySlug(classes, slug)
      case None => Rejected(NotFound(slug))
      case Some(k) =>
        var cls := classes[k];
        if !MayUpdate(cls, caller.value) then Rejected(Forbidden)
        else match Retitle(cls, form.title, makeSlug)
          case Err(e) => Rejected(e)
          case Ok(c1) =>
            var c2 := if form.description != "" then c1.(description := form.description) else c1;
            match Relogo(c2, form.logo, fileId)
            case Err(e) => Stopped(e, c2)
            case Ok(c3) => Updated(c3.(isActive := form.isActive))
  }

  /** An update whose form sets nothing but the active flag changes only that flag. */
  lemma FlagOnlyUpdate(classes: seq<Class>, slug: string, caller: User, isActive: bool,
                       makeSlug: string -> string, fileId: string)
    requires ClassBySlug(classes, slug).Some?
    requires MayUpdate(classes[ClassBySlug(classes, slug).value], caller)
    ensures UpdateClass(classes, slug, Some(caller), ClassForm("", "", None, isActive), makeSlug, fileId)
         == Updated(classes[ClassBySlug(classes, slug).value].(isActive := isActive))
  {
  }

  /** A rejected logo does not undo the title and description already saved, and
      the active flag of the form is never applied. */
  lemma RejectedLogoKeepsEarlierFields(classes: seq<Class>, slug: string, caller: User, form: ClassForm,
                                       makeSlug: string -> string, fileId: string)
    requires ClassBySlug(classes, slug).Some?
    requires MayUpdate(classes[ClassBySlug(classes, slug).value], caller)
    requires form.title != "" ==> RenameLogo(classes[ClassBySlug(classes, slug).value].logo, makeSlug(form.title)).Ok?
    requires form.logo.Some? && !IsAllowedExtension(Ext(form.logo.value))
    requires form.title != "" || classes[ClassBySlug(classes, slug).value].logo.Some?
    ensures UpdateClass(classes, slug, Some(caller), form, makeSlug, fileId).Stopped?
    ensures UpdateClass(classes, slug, Some(caller), form, makeSlug, fileId).failure == BadExtension
    ensures var before := classes[ClassBySlug(classes, slug).value];
            var saved := UpdateClass(classes, slug, Some(caller), form, makeSlug, fileId).saved;
            && saved.title == (if form.title != "" then form.title else before.title)
            && saved.description == (if form.description != "" then form.description else before.description)
            && saved.isActive == before.isActive
  {
  }

  /** Class deletion: the class must exist (checked before the role), and only
      an administrator may delete it.  The delete is soft: the row is marked
      deleted and stays in the table. */
  function DeleteClass(classes: seq<Class>, slug: string, caller: Option<User>): (r: Result<seq<Class>>)
    ensures r.Ok? <==> IsAdmin(caller) && ClassBySlug(classes, slug).Some?
    ensures caller.None? ==> r == Err(Unauthenticated)
    ensures caller.Some? && ClassBySlug(classes, slug).None? ==> r == Err(NotFound(slug))
    ensures caller.Some? && ClassBySlug(classes, slug).Some? && !IsAdmin(caller) ==> r == Err(Forbidden)
    ensures r.Ok? ==> var k := ClassBySlug(classes, slug).value;
                      && |r.value| == |classes|
                      && r.value[k] == classes[k].(deleted := true)
                      && forall i :: 0 <= i < |classes| && i != k ==> r.value[i] == classes[i]
  {
    if caller.None? then Err(Unauthenticated)
    else match ClassBySlug(classes, slug)
      case None => Err(NotFound(slug))
      case Some(k) =>
        if caller.value.kind != Admin then Err(Forbidden)
        else Ok(classes[k := classes[k].(deleted := true)])
  }

  /** With slugs unique across the table, a deleted class is no longer found. */
  lemma DeletedClassIsGone(classes: seq<Class>, slug: string, caller: Option<User>)
    requires forall i, j :: 0 <= i < j < |classes| ==> classes[i].slug != classes[j].slug
    requires DeleteClass(classes, slug, caller).Ok?
    ensures ClassBySlug(DeleteClass(classes, slug, caller).value, slug).None?
  {
    var k := ClassBySlug(classes, slug).value;
    var after := DeleteClass(classes, slug, caller).value;
    forall i | 0 <= i < |after|
      ensures after[i].deleted || after[i].slug != slug
    {
      if i < k {
        assert classes[i].slug != classes[k].slug;
      } else if i > k {
        assert classes[k].slug != classes[i].slug;
      }
    }
  }

  /** A deleted class keeps its slug taken: creating a class whose slug is the
      same answers Conflict and adds no row. */
  lemma DeletedClassKeepsSlugTaken(classes: seq<Class>, slug: string, admin: User, form: ClassForm,
                                   makeSlug: string -> string, fileId: string, newId: int)
    requires DeleteClass(classes, slug, Some(admin)).Ok?
    requires RequiredClassFields(form) == [] && IsAllowedExtension(Ext(form.logo.value))
    requires makeSlug(form.title) == slug
    ensures var after := DeleteClass(classes, slug, Some(admin)).value;
            var r := CreateClass(after, Some(admin), form, makeSlug, fileId, newId);
            r.failure == Some(Conflict) && r.classes == after
  {
    var k := ClassBySlug(classes, slug).value;
    var after := DeleteClass(classes, slug, Some(admin)).value;
    assert after[k].slug == slug;
    assert Clashes(after, form.title, makeSlug(form.title));
  }

  /** An accepted new logo names the same file after a later rename of the
      class. */
  lemma NewLogoSurvivesRename(cls: Class, name: string, fileId: string, newSlug: string)
    requires NoSlash(cls.slug) && NoDotOrSlash(fileId)
    requires Relogo(cls, Some(name), fileId).Ok?
    ensures RenameLogo(Relogo(cls, Some(name), fileId).value.logo, newSlug)
         == Ok(ClassLogoPath(newSlug, fileId + Ext(name)))
    ensures IsAllowedExtension(Ext(name))
  {
    StoredNameHasNoSlash(fileId, name);
    RenameMovesLogo(cls.slug, fileId + Ext(name), newSlug);
  }
}
