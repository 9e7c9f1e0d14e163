/**
  The API adapter of groups: the validation of group names with its two
  sanitisers, the hydration of a group entity from an API request, the
  uniqueness of names and the sort keys.

  strip_tags() is given to the adapter as a function and is otherwise not
  interpreted. The stored groups are given as a map from id to name.
*/
module GroupAdapter {
  import opened Php

  /** The characters sanitizeString trims from both ends of a name; the no-break space is U+00A0. */
  const EdgeChars: set<char> :=
    {' ', '/', '\\', '?', '<', '>', ':', '*', '%', '|', '"', '`', '&', ';', '\U{A0}', '\t', '\n', '\r'}

  /** The characters turned into "[" and into "]". */
  const OpenBrackets: set<char> := {'(', '{'}
  const CloseBrackets: set<char> := {')', '}'}

  /** POSIX [[:cntrl:]] over ASCII. */
  const Controls: set<char> := (set n: int | 0 <= n < 0x20 :: n as char) + {'\U{7F}'}

  /** The characters sanitizeString turns into spaces. */
  const Blanked: set<char> :=
    Controls + {'/', '\\', '?', '<', '>', '*', '%', '|', '"', '`', '&', ';', '#', '+', '^', '$'} + Spaces

  /** The characters a sanitized name never holds. */
  const Forbidden: set<char> := (Blanked - {' '}) + OpenBrackets + CloseBrackets

  /** The words a group name may not be, compared in lower case. */
  const Reserved: set<string> :=
    {"id", "name", "comment", "show", "browse", "add", "edit", "delete", "delete-confirm", "batch-edit", "batch-edit-all"}

  /** The error key of every name error. */
  const NameKey: string := "o:name"

  /**
    The classes of characters sanitizeString works with, over an alphabet T.
    PHP reads them as bytes; the model reads them as characters.
  */
  datatype Classes<T> = Classes(
    edge: set<T>,               // trimmed from both ends first
    open: set<T>, openTo: T,    // "(" and "{" become "["
    close: set<T>, closeTo: T,  // ")" and "}" become "]"
    blanked: set<T>,            // become a space
    spaces: set<T>, space: T,   // PCRE's \s and the space
    trim: set<T>)               // trim()'s default list

  /** The replacements do not bring back what an earlier one removed, and the space is whitespace that trim() removes. */
  predicate Sound<T(==)>(k: Classes<T>)
  {
    && k.space in k.spaces && k.space in k.trim
    && k.openTo !in k.open && k.closeTo !in k.open + k.close && k.space !in k.open + k.close
  }

  /** trim(preg_replace('/\s+/', ' ', s)) over an alphabet. */
  function Light<T(==)>(s: seq<T>, spaces: set<T>, space: T, trim: set<T>): seq<T>
    requires space in spaces
  {
    Trim(CollapseRuns(s, spaces, space), trim)
  }

  /** The light sanitisation is single spaced and has no whitespace, nor anything trim() removes, at either end. */
  lemma LightShape<T>(s: seq<T>, spaces: set<T>, space: T, trim: set<T>)
    requires space in spaces && space in trim
    ensures var r := Light(s, spaces, space, trim);
      && SingleRuns(r, spaces, space)
      && (r == [] || (r[0] !in spaces + trim && r[|r| - 1] !in spaces + trim))
  {
    var collapsed := CollapseRuns(s, spaces, space);
    var r := Trim(collapsed, trim);
    TrimSingleRuns(collapsed, spaces, space, trim);
    if r != [] {
      assert r[0] !in trim && r[|r| - 1] !in trim;
      assert r[0] !in spaces && r[|r| - 1] !in spaces;
    }
  }

  /** A string with no whitespace and nothing trim() removes is its own light sanitisation. */
  lemma LightKeeps<T>(s: seq<T>, spaces: set<T>, space: T, trim: set<T>)
    requires space in spaces && NoneOf(s, spaces + trim)
    ensures Light(s, spaces, space, trim) == s
  {
    CollapseSingleRuns(s, spaces, space);
    TrimKeepsInner(s, trim);
  }

  /** The light sanitisation is idempotent. */
  lemma LightIdempotent<T>(s: seq<T>, spaces: set<T>, space: T, trim: set<T>)
    requires space in spaces && space in trim
    ensures Light(Light(s, spaces, space, trim), spaces, space, trim) == Light(s, spaces, space, trim)
  {
    var r := Light(s, spaces, space, trim);
    LightShape(s, spaces, space, trim);
    CollapseSingleRuns(r, spaces, space);
    TrimIdempotent(CollapseRuns(s, spaces, space), trim);
  }

  /** The steps of sanitizeString between strip_tags and the light sanitisation. */
  function Blank<T(==)>(s: seq<T>, k: Classes<T>): seq<T>
  {
    var trimmed := Trim(s, k.edge);
    var squared := ReplaceChars(trimmed, k.open, k.openTo);
    var closed := ReplaceChars(squared, k.close, k.closeTo);
    ReplaceChars(closed, k.blanked, k.space)
  }

  /** After blanking, none of the replaced characters is left but the space. */
  lemma BlankClean<T>(s: seq<T>, k: Classes<T>)
    requires Sound(k)
    ensures NoneOf(Blank(s, k), (k.blanked - {k.space}) + k.open + k.close)
  {
    var squared := ReplaceChars(Trim(s, k.edge), k.open, k.openTo);
    var closed := ReplaceChars(squared, k.close, k.closeTo);
    var e := ReplaceChars(closed, k.blanked, k.space);
    forall i | 0 <= i < |e| ensures e[i] !in (k.blanked - {k.space}) + k.open + k.close {
      assert squared[i] !in k.open;
      assert closed[i] !in k.open + k.close;
    }
  }

  /** sanitizeString after strip_tags, over an alphabet. */
  function SanitizeWith<T(==)>(s: seq<T>, k: Classes<T>): seq<T>
    requires Sound(k)
  {
    Light(Blank(s, k), k.spaces, k.space, k.trim)
  }

  /** The sanitisation leaves no replaced character but the space, single spaced and trimmed. */
  lemma SanitizeWithClean<T>(s: seq<T>, k: Classes<T>)
    requires Sound(k)
    ensures var r := SanitizeWith(s, k);
      && NoneOf(r, (k.blanked - {k.space}) + k.open + k.close)
      && SingleRuns(r, k.spaces, k.space)
      && (r == [] || (r[0] !in k.spaces + k.trim && r[|r| - 1] !in k.spaces + k.trim))
  {
    var e := Blank(s, k);
    var r := SanitizeWith(s, k);
    BlankClean(s, k);
    CollapseRunsFrom(e, k.spaces, k.space);
    forall i | 0 <= i < |r| ensures r[i] !in (k.blanked - {k.space}) + k.open + k.close {
      TrimChars(CollapseRuns(e, k.spaces, k.space), k.trim, r[i]);
      assert r[i] in e || r[i] == k.space;
    }
    LightShape(e, k.spaces, k.space, k.trim);
  }

  /** The sanitisation is never longer than the string once its edges are trimmed. */
  lemma SanitizeWithShorter<T>(s: seq<T>, k: Classes<T>)
    requires Sound(k)
    ensures |SanitizeWith(s, k)| <= |Trim(s, k.edge)|
  {
  }

  /** A string with none of the classes' characters is its own sanitisation. */
  lemma SanitizeWithKeeps<T>(s: seq<T>, k: Classes<T>)
    requires Sound(k) && NoneOf(s, k.edge + k.open + k.close + k.blanked + k.spaces + k.trim)
    ensures SanitizeWith(s, k) == s
  {
    var all := k.edge + k.open + k.close + k.blanked + k.spaces + k.trim;
    NoneOfSubset(s, k.edge, all);
    NoneOfSubset(s, k.open, all);
    NoneOfSubset(s, k.close, all);
    NoneOfSubset(s, k.blanked, all);
    NoneOfSubset(s, k.spaces + k.trim, all);
    if s != [] {
      assert s[0] !in k.edge && s[|s| - 1] !in k.edge;
    }
    TrimKeepsInner(s, k.edge);
    assert ReplaceChars(s, k.open, k.openTo) == s;
    assert ReplaceChars(s, k.close, k.closeTo) == s;
    assert ReplaceChars(s, k.blanked, k.space) == s;
    assert Blank(s, k) == s;
    LightKeeps(s, k.spaces, k.space, k.trim);
  }

  /** The classes of sanitizeString, read as characters. */
  const CharClasses: Classes<char> :=
    Classes(EdgeChars, OpenBrackets, '[', CloseBrackets, ']', Blanked, Spaces, ' ', DefaultTrim)

  lemma CharClassesSound()
    ensures Sound(CharClasses)
  {
  }

  /**
    sanitizeLightString: runs of whitespace become one space, then the ends
    are trimmed.
  */
  function SanitizeLightString(s: string): string
  {
    Light(s, Spaces, ' ', DefaultTrim)
  }

  /** A lightly sanitised string is single spaced, with no whitespace and nothing trim() removes at its ends. */
  lemma SanitizeLightClean(s: string)
    ensures var r := SanitizeLightString(s);
      && SingleSpaced(r)
      && (r == [] || (r[0] !in Spaces + DefaultTrim && r[|r| - 1] !in Spaces + DefaultTrim))
  {
    LightShape(s, Spaces, ' ', DefaultTrim);
  }

  /** Sanitising lightly a second time changes nothing. */
  lemma SanitizeLightIdempotent(s: string)
    ensures SanitizeLightString(SanitizeLightString(s)) == SanitizeLightString(s)
  {
    LightIdempotent(s, Spaces, ' ', DefaultTrim);
  }

  /**
    sanitizeString: tags are stripped, the edge characters trimmed, brackets
    squared, every forbidden character blanked, then spaces collapsed and the
    ends trimmed.
  */
  function SanitizeString(s: string, stripTags: string -> string): string
  {
    CharClassesSound();
    SanitizeWith(stripTags(s), CharClasses)
  }

  /**
    A sanitized string holds none of the forbidden characters, is single
    spaced and has no whitespace at either end.
  */
  lemma SanitizeStringClean(s: string, stripTags: string -> string)
    ensures var r := SanitizeString(s, stripTags);
      && NoneOf(r, Forbidden)
      && SingleSpaced(r)
      && (r == [] || (r[0] !in Spaces + DefaultTrim && r[|r| - 1] !in Spaces + DefaultTrim))
  {
    CharClassesSound();
    SanitizeWithClean(stripTags(s), CharClasses);
  }

  /** What validateName reports about a name; None is a name that is not a string. */
  datatype NameError = MustHaveName | ForbiddenCharacters(name: string) | OnlyNumbers | ReservedWord | NameTaken(name: string)

  /** The checks validateName makes on a non-blank name, `changed` telling whether sanitizeString changes it. */
  function Checks(light: string, changed: bool): seq<NameError>
  {
    (if changed then [ForbiddenCharacters(light)] else [])
      + (if IsIdString(light) then [OnlyNumbers] else [])
      + (if Lower(light) in Reserved then [ReservedWord] else [])
  }

  /** The errors validateName adds, in order. */
  function NameErrors(name: Option<string>, stripTags: string -> string): seq<NameError>
  {
    if name.None? then [MustHaveName]
    else
      var light := SanitizeLightString(name.value);
      if light == "" then [MustHaveName]
      else Checks(light, SanitizeString(light, stripTags) != light)
  }

  /** Each check reports its error exactly when it fails, and none says "must have a name". */
  lemma ChecksCases(light: string, changed: bool)
    ensures var errors := Checks(light, changed);
      && MustHaveName !in errors
      && (ForbiddenCharacters(light) in errors <==> changed)
      && (OnlyNumbers in errors <==> IsIdString(light))
      && (ReservedWord in errors <==> Lower(light) in Reserved)
  {
  }

  /**
    The cases of validateName: a name that is not a string or is blank has
    only "must have a name"; otherwise each check reports its error exactly
    when it fails.
  */
  lemma NameErrorsCases(name: Option<string>, stripTags: string -> string)
    ensures var errors := NameErrors(name, stripTags);
      (MustHaveName in errors <==> name.None? || SanitizeLightString(name.value) == "")
      && (MustHaveName in errors ==> errors == [MustHaveName])
    ensures name.Some? && SanitizeLightString(name.value) != "" ==>
      var errors := NameErrors(name, stripTags);
      var light := SanitizeLightString(name.value);
      && (ForbiddenCharacters(light) in errors <==> SanitizeString(light, stripTags) != light)
      && (OnlyNumbers in errors <==> IsIdString(light))
      && (ReservedWord in errors <==> Lower(light) in Reserved)
  {
    if name.Some? && SanitizeLightString(name.value) != "" {
      var light := SanitizeLightString(name.value);
      ChecksCases(light, SanitizeString(light, stripTags) != light);
    }
  }

  /**
    A name validateName accepts is its own light and full sanitisation: single
    spaced, with no forbidden character and no space at its ends, not made of
    digits only and not a reserved word.
  */
  lemma AcceptedNameIsClean(name: string, stripTags: string -> string)
    requires NameErrors(Some(name), stripTags) == []
    ensures var light := SanitizeLightString(name);
      && light != ""
      && SanitizeString(light, stripTags) == light
      && NoneOf(light, Forbidden) && SingleSpaced(light)
      && !IsDigits(light) && Lower(light) !in Reserved
  {
    var light := SanitizeLightString(name);
    NameErrorsCases(Some(name), stripTags);
    assert light != "";
    SanitizeStringClean(light, stripTags);
  }

  /** A name made of digits only is its own light sanitisation, so validateName rejects it as a number. */
  lemma DigitsNameRejected(name: string, stripTags: string -> string)
    requires IsDigits(name)
    ensures OnlyNumbers in NameErrors(Some(name), stripTags)
  {
    assert NoneOf(name, Spaces + DefaultTrim) by {
      forall i | 0 <= i < |name| ensures name[i] !in Spaces + DefaultTrim {
        assert '0' <= name[i] <= '9';
      }
    }
    LightKeeps(name, Spaces, ' ', DefaultTrim);
    NameErrorsCases(Some(name), stripTags);
  }

  /** One entry of Omeka's error store: a key and a message. */
  datatype Error = Error(key: string, message: NameError)

  /** The name errors, under the key "o:name". */
  function Keyed(errors: seq<NameError>): (r: seq<Error>)
    ensures |r| == |errors|
    ensures forall i :: 0 <= i < |errors| ==> r[i] == Error(NameKey, errors[i])
  {
    seq(|errors|, i requires 0 <= i < |errors| => Error(NameKey, errors[i]))
  }

  lemma KeyedConcat(a: seq<NameError>, b: seq<NameError>)
    ensures Keyed(a + b) == Keyed(a) + Keyed(b)
  {
  }

  /** Omeka's ErrorStore: the errors added so far, in order. */
  class ErrorStore {
    var errors: seq<Error>

    constructor ()
      ensures errors == []
    {
      errors := [];
    }

    method AddError(key: string, message: NameError)
      modifies this
      ensures errors == old(errors) + [Error(key, message)]
    {
      errors := errors + [Error(key, message)];
    }
  }

  /** A field of an API request: absent, null, a string or an int. */
  datatype Field = Absent | Null | Text(value: string) | Number(n: int)

  /** The part of a create or update request the adapter reads; `partial` is a partial update. */
  datatype Request = Request(partial: bool, name: Field, comment: Field)

  /** Omeka's shouldHydrate: always, except that a partial update hydrates only the fields it holds. */
  predicate ShouldHydrate(partial: bool, f: Field)
  {
    !partial || !f.Absent?
  }

  /** The string trim() receives for a field that is not null: the string itself, or the int in decimal. */
  function FieldString(f: Field): string
    requires f.Text? || f.Number?
  {
    if f.Text? then f.value else IntString(f.n)
  }

  /**
    The value hydrate leaves in a field: when there is a value to hydrate,
    a string trimmed or an int written in decimal; else the current value.
  */
  function Hydrated(current: Option<string>, partial: bool, f: Field): (r: Option<string>)
    ensures ShouldHydrate(partial, f) && f.Text? ==> r == Some(Trim(f.value, DefaultTrim))
    ensures ShouldHydrate(partial, f) && f.Number? ==> r == Some(IntString(f.n))
    ensures !(ShouldHydrate(partial, f) && (f.Text? || f.Number?)) ==> r == current
  {
    if ShouldHydrate(partial, f) && (f.Text? || f.Number?) then
      if f.Number? then IntStringTrimmed(f.n); Some(Trim(FieldString(f), DefaultTrim))
      else Some(Trim(FieldString(f), DefaultTrim))
    else current
  }

  /** Hydrating from the same request a second time changes nothing. */
  lemma HydrateIdempotent(current: Option<string>, partial: bool, f: Field)
    ensures Hydrated(Hydrated(current, partial, f), partial, f) == Hydrated(current, partial, f)
  {
  }

  /** A hydrated value never starts or ends with a character trim() removes. */
  lemma HydratedTrimmed(current: Option<string>, partial: bool, f: Field)
    requires ShouldHydrate(partial, f) && (f.Text? || f.Number?)
    ensures var r := Hydrated(current, partial, f).value;
      r == [] || (r[0] !in DefaultTrim && r[|r| - 1] !in DefaultTrim)
  {
  }

  /** A group entity: its id (0 before it is saved), name and comment, which may be null. */
  class GroupEntity {
    var id: nat
    var name: Option<string>
    var comment: Option<string>

    constructor (id: nat, name: Option<string>, comment: Option<string>)
      ensures this.id == id && this.name == name && this.comment == comment
    {
      this.id := id;
      this.name := name;
      this.comment := comment;
    }
  }

  /**
    Omeka's isUnique on the name: no stored group other than the entity
    itself (an entity with id 0 has no stored row) has that name. A null name
    never equals anything in SQL.
  */
  predicate IsUnique(stored: map<nat, string>, id: nat, name: Option<string>)
  {
    name.None? || forall k :: k in stored && stored[k] == name.value ==> id != 0 && k == id
  }

  /** A saved group that keeps its own name is unique exactly when no other group has that name. */
  lemma OwnNameUnique(stored: map<nat, string>, id: nat)
    requires id != 0 && id in stored
    ensures IsUnique(stored, id, Some(stored[id])) <==> forall k :: k in stored && k != id ==> stored[k] != stored[id]
  {
  }

  /** The sort keys of groups: "group" is an alias of "name". */
  const SortFields: map<string, string> := map["id" := "id", "name" := "name", "group" := "name", "comment" := "comment"]

  /** The keys sortQuery ignores, kept for information. */
  const InfoKeys: set<string> := {"count", "users", "resources", "item_sets", "items", "media"}

  /**
    sortQuery: the column a sort_by value orders by, if any. A value that is
    not a string sorts nothing; an information key sorts nothing; "group"
    sorts by name; any other key sorts by its sort field when it has one.
  */
  function SortColumn(sortBy: Option<string>): (col: Option<string>)
    ensures sortBy.None? ==> col.None?
    ensures sortBy.Some? && sortBy.value in InfoKeys ==> col.None?
    ensures sortBy.Some? && sortBy.value !in InfoKeys ==>
      (col.Some? <==> sortBy.value in SortFields) && (col.Some? ==> col.value == SortFields[sortBy.value])
  {
    if sortBy.None? then None
    else
      var key := sortBy.value;
      if key in InfoKeys then None
      else
        // "group" is rewritten to "name" before the parent's lookup.
        var field := if key == "group" then "name" else key;
        if field in SortFields then Some(SortFields[field]) else None
  }

  /** Sorting by "group" orders as sorting by "name" does: by the name column. */
  lemma SortAlias()
    ensures SortColumn(Some("group")) == SortColumn(Some("name")) == Some("name")
    ensures SortColumn(Some("count")) == None
  {
  }

  /** The API adapter of groups. */
  class Adapter {
    const stripTags: string -> string
    const stored: map<nat, string>

    constructor (stripTags: string -> string, stored: map<nat, string>)
      ensures this.stripTags == stripTags && this.stored == stored
    {
      this.stripTags := stripTags;
      this.stored := stored;
    }

    /** hydrate: the trimmed name and comment, each only when there is a value to hydrate. */
    method Hydrate(request: Request, entity: GroupEntity)
      modifies entity
      ensures entity.name == Hydrated(old(entity.name), request.partial, request.name)
      ensures entity.comment == Hydrated(old(entity.comment), request.partial, request.comment)
      ensures entity.id == old(entity.id)
    {
      if ShouldHydrate(request.partial, request.name) {
        var name := request.name;
        if !name.Null? && !name.Absent? {
          entity.name := Some(Trim(FieldString(name), DefaultTrim));
        }
      }
      if ShouldHydrate(request.partial, request.comment) {
        var comment := request.comment;
        if !comment.Null? && !comment.Absent? {
          entity.comment := Some(Trim(FieldString(comment), DefaultTrim));
        }
      }
    }

    /** validateName: adds its errors to the store one by one, and returns whether it added none. */
    method ValidateName(name: Option<string>, errorStore: ErrorStore) returns (result: bool)
      modifies errorStore
      ensures errorStore.errors == old(errorStore.errors) + Keyed(NameErrors(name, stripTags))
      ensures result <==> NameErrors(name, stripTags) == []
    {
      var sanitized := if name.Some? then SanitizeLightString(name.value) else "";
      if name.Some? && sanitized != "" {
        var light := sanitized;
        sanitized := SanitizeString(sanitized, stripTags);
        result := ReportChecks(light, light != sanitized, errorStore);
      } else {
        errorStore.AddError(NameKey, MustHaveName);
        result := false;
      }
    }

    /** The three checks of validateName on a name that is not blank. */
    method ReportChecks(light: string, changed: bool, errorStore: ErrorStore) returns (result: bool)
      modifies errorStore
      ensures errorStore.errors == old(errorStore.errors) + Keyed(Checks(light, changed))
      ensures result <==> Checks(light, changed) == []
    {
      result := true;
      var forbidden := if changed then [ForbiddenCharacters(light)] else [];
      var numbers := if IsIdString(light) then [OnlyNumbers] else [];
      var reserved := if Lower(light) in Reserved then [ReservedWord] else [];
      if changed {
        errorStore.AddError(NameKey, ForbiddenCharacters(light));
        result := false;
      }
      if IsIdString(light) {
        errorStore.AddError(NameKey, OnlyNumbers);
        result := false;
      }
      if Lower(light) in Reserved {
        errorStore.AddError(NameKey, ReservedWord);
        result := false;
      }
      KeyedConcat(forbidden, numbers);
      KeyedConcat(forbidden + numbers, reserved);
    }

    /** validateRequest: the name is validated when the request holds one, even a null one. */
    method ValidateRequest(name: Field, errorStore: ErrorStore)
      modifies errorStore
      ensures name.Absent? ==> errorStore.errors == old(errorStore.errors)
      ensures !name.Absent? ==>
        errorStore.errors == old(errorStore.errors) + Keyed(NameErrors(if name.Text? then Some(name.value) else None, stripTags))
    {
      if !name.Absent? {
        var _ := ValidateName(if name.Text? then Some(name.value) else None, errorStore);
      }
    }

    /** validateEntity: the name errors, then "already taken" when another stored group has the name. */
    method ValidateEntity(entity: GroupEntity, errorStore: ErrorStore)
      requires entity != errorStore as object
      modifies errorStore
      ensures errorStore.errors == old(errorStore.errors) + Keyed(NameErrors(entity.name, stripTags))
        + (if IsUnique(stored, entity.id, entity.name) then [] else [Error(NameKey, NameTaken(entity.name.value))])
    {
      var name := entity.name;
      var _ := ValidateName(name, errorStore);
      if !IsUnique(stored, entity.id, name) {
        errorStore.AddError(NameKey, NameTaken(name.value));
      }
    }
  }

  /** The classes of sanitizeString as PHP reads them: the bytes of their UTF-8 encoding, each on its own. */
  const ByteClasses: Classes<byte> :=
    Classes(BytesOf(EdgeChars), BytesOf(OpenBrackets), '[' as int, BytesOf(CloseBrackets), ']' as int,
            BytesOf(Blanked), BytesOf(Spaces), ' ' as int, BytesOf(DefaultTrim))

  /** The bytes of a list of ASCII characters are their codes. */
  lemma AsciiBytes(cs: set<char>, x: byte)
    requires forall c :: c in cs ==> (c as int) < 0x80
    ensures x in BytesOf(cs) <==> exists c :: c in cs && c as int == x
  {
    if x in BytesOf(cs) {
      var c, i :| c in cs && 0 <= i < |EncodeChar(c)| && EncodeChar(c)[i] == x;
      assert EncodeChar(c) == [c as int];
    }
    if exists c :: c in cs && c as int == x {
      var c :| c in cs && c as int == x;
      assert EncodeChar(c)[0] == x;
    }
  }

  lemma ByteClassesSound()
    ensures Sound(ByteClasses)
  {
    AsciiBytes(Spaces, ' ' as int);
    AsciiBytes(DefaultTrim, ' ' as int);
    AsciiBytes(OpenBrackets, '[' as int);
    AsciiBytes(OpenBrackets, ']' as int);
    AsciiBytes(CloseBrackets, ']' as int);
    AsciiBytes(OpenBrackets, ' ' as int);
    AsciiBytes(CloseBrackets, ' ' as int);
  }

  /**
    sanitizeString as PHP runs it, on the UTF-8 bytes of the name: the
    character list of the first trim is read byte by byte, so the no-break
    space contributes the bytes C2 and A0 on their own.
  */
  function SanitizeStringAsWritten(b: seq<byte>, stripTags: seq<byte> -> seq<byte>): seq<byte>
  {
    ByteClassesSound();
    SanitizeWith(stripTags(b), ByteClasses)
  }

  /** sanitizeLightString as PHP runs it, on bytes. */
  function SanitizeLightAsWritten(b: seq<byte>): seq<byte>
  {
    ByteClassesSound();
    Light(b, ByteClasses.spaces, ByteClasses.space, ByteClasses.trim)
  }

  /** A0, the second byte of the no-break space, is one of the edge bytes as PHP reads them. */
  lemma NoBreakSpaceByteIsEdge()
    ensures 0xA0 in ByteClasses.edge
  {
    assert EncodeChar('\U{A0}') == [0xC2, 0xA0];
    assert EncodeChar('\U{A0}')[1] == 0xA0;
  }

  /** A byte that is no ASCII character's code is none of an ASCII list's bytes. */
  lemma NotAsciiByte(cs: set<char>, x: byte)
    requires forall c :: c in cs ==> (c as int) < 0x80
    requires forall c :: c in cs ==> c as int != x
    ensures x !in BytesOf(cs)
  {
    AsciiBytes(cs, x);
  }

  /** The bytes of "Voilà" hold no whitespace byte. */
  lemma VoilaBytesNoSpace()
    ensures NoneOf([0x56, 0x6F, 0x69, 0x6C, 0xC3, 0xA0], BytesOf(Spaces) + BytesOf(DefaultTrim))
  {
    var b: seq<byte> := [0x56, 0x6F, 0x69, 0x6C, 0xC3, 0xA0];
    forall i | 0 <= i < |b| ensures b[i] !in BytesOf(Spaces) && b[i] !in BytesOf(DefaultTrim) {
      NotAsciiByte(Spaces, b[i]);
      NotAsciiByte(DefaultTrim, b[i]);
    }
  }

  /** As written, the light sanitisation leaves the bytes of "Voilà" unchanged. */
  lemma VoilaLightAsWritten()
    ensures SanitizeLightAsWritten(Utf8("Voil\U{E0}")) == Utf8("Voil\U{E0}")
  {
    VoilaBytes();
    VoilaBytesNoSpace();
    ByteClassesSound();
    LightKeeps(Utf8("Voil\U{E0}"), ByteClasses.spaces, ByteClasses.space, ByteClasses.trim);
  }

  /** As written, sanitizeString shortens the bytes of "Voilà". */
  lemma VoilaSanitizedAsWritten(stripTags: seq<byte> -> seq<byte>)
    requires stripTags(Utf8("Voil\U{E0}")) == Utf8("Voil\U{E0}")
    ensures |SanitizeStringAsWritten(Utf8("Voil\U{E0}"), stripTags)| < |Utf8("Voil\U{E0}")|
  {
    var b := Utf8("Voil\U{E0}");
    VoilaBytes();
    NoBreakSpaceByteIsEdge();
    TrimDropsLast(b, ByteClasses.edge);
    ByteClassesSound();
    SanitizeWithShorter(b, ByteClasses);
  }

  /** "Voilà" holds none of the characters sanitizeString or sanitizeLightString act on. */
  lemma VoilaHasNoneOf()
    ensures NoneOf("Voil\U{E0}", EdgeChars + OpenBrackets + CloseBrackets + Blanked + Spaces + DefaultTrim)
  {
    var name := "Voil\U{E0}";
    VoilaNoEdge();
    VoilaNotBlanked();
    VoilaNoSpace();
    NoneOfUnion(name, EdgeChars + OpenBrackets + CloseBrackets, Blanked);
    NoneOfUnion(name, EdgeChars + OpenBrackets + CloseBrackets + Blanked, Spaces + DefaultTrim);
  }

  lemma VoilaNoEdge()
    ensures NoneOf("Voil\U{E0}", EdgeChars + OpenBrackets + CloseBrackets)
  {
  }

  lemma VoilaNotBlanked()
    ensures NoneOf("Voil\U{E0}", Blanked)
  {
  }

  lemma VoilaNoSpace()
    ensures NoneOf("Voil\U{E0}", Spaces + DefaultTrim)
  {
  }

  /** On characters, "Voilà" is its own light sanitisation. */
  lemma VoilaLightKept()
    ensures SanitizeLightString("Voil\U{E0}") == "Voil\U{E0}"
  {
    VoilaNoSpace();
    LightKeeps("Voil\U{E0}", Spaces, ' ', DefaultTrim);
  }

  /** On characters, "Voilà" is its own sanitisation. */
  lemma VoilaKept(stripText: string -> string)
    requires stripText("Voil\U{E0}") == "Voil\U{E0}"
    ensures SanitizeString("Voil\U{E0}", stripText) == "Voil\U{E0}"
  {
    VoilaHasNoneOf();
    CharClassesSound();
    SanitizeWithKeeps("Voil\U{E0}", CharClasses);
  }

  /** "Voilà" is neither a number nor a reserved word. */
  lemma VoilaPassesChecks()
    ensures Checks("Voil\U{E0}", false) == []
  {
    assert "Voil\U{E0}"[0] == 'V';
    assert Lower("Voil\U{E0}") == "voil\U{E0}";
  }

  /** On characters, validateName accepts "Voilà". */
  lemma VoilaAccepted(stripText: string -> string)
    requires stripText("Voil\U{E0}") == "Voil\U{E0}"
    ensures NameErrors(Some("Voil\U{E0}"), stripText) == []
  {
    VoilaLightKept();
    VoilaKept(stripText);
    VoilaPassesChecks();
  }

  /**
    "Voilà" ends with the bytes C3 A0. As written, the first trim of
    sanitizeString removes the final A0, so the sanitized bytes are not the
    lightly sanitized name and validateName reports forbidden characters; the
    sanitisation on characters, which the model uses, accepts the name.
  */
  lemma TrailingAGraveAsWritten(stripTags: seq<byte> -> seq<byte>, stripText: string -> string)
    requires stripTags(Utf8("Voil\U{E0}")) == Utf8("Voil\U{E0}")
    requires stripText("Voil\U{E0}") == "Voil\U{E0}"
    ensures var b := Utf8("Voil\U{E0}");
      SanitizeStringAsWritten(SanitizeLightAsWritten(b), stripTags) != SanitizeLightAsWritten(b)
    ensures NameErrors(Some("Voil\U{E0}"), stripText) == []
  {
    VoilaLightAsWritten();
    VoilaSanitizedAsWritten(stripTags);
    VoilaAccepted(stripText);
  }
}
