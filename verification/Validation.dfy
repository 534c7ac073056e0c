/** Validation of a document against an index definition: schema mode, field types, and defaults. */
module Validation {
  import opened Options

  /** JSON values. Numbers are told apart by how they are stored: signed, unsigned, or floating point. */
  datatype Json =
    | Null
    | Bool(b: bool)
    | Signed(i: int)
    | Unsigned(u: nat)
    | Float(f: real)
    | String(s: string)
    | Array(items: seq<Json>)
    | Object(members: map<string, Json>)

  datatype SchemaMode = Strict | DropUnmapped | Dynamic

  datatype FieldType = Text | Keyword | Datetime | Integer | FloatType | Boolean | Bytes

  datatype FieldDef = FieldDef(fieldType: FieldType, isOptional: bool, default: Option<Json>)

  datatype IndexDef = IndexDef(mode: SchemaMode, fields: map<string, FieldDef>)

  datatype Error =
    | NotAnObject
    | UnknownField(field: string)
    | MissingRequiredField(field: string)
    | TypeMismatch(field: string, expected: FieldType)

  datatype Result = Ok(document: Json) | Err(error: Error)

  type Doc = map<string, Json>

  const SOURCE := "_source"

  predicate IsNumber(v: Json) {
    v.Signed? || v.Unsigned? || v.Float?
  }

  predicate HasType(v: Json, t: FieldType) {
    match t
    case Text => v.String?
    case Keyword => v.String?
    case Integer => v.Signed? || v.Unsigned?
    case FloatType => IsNumber(v)
    case Boolean => v.Bool?
    case Datetime => v.String? || IsNumber(v)
    case Bytes => v.String? || v.Array?
  }

  // ---------------------------------------------------------------- specification

  /** A key the schema does not know; `_source` is let through. */
  predicate Unmapped(def: IndexDef, key: string) {
    key !in def.fields && key != SOURCE
  }

  /** A value fits a field: of its type, or null in an optional one. */
  predicate Conforms(fd: FieldDef, v: Json) {
    if v.Null? then fd.isOptional else HasType(v, fd.fieldType)
  }

  predicate FieldOk(def: IndexDef, doc: Doc, f: string)
    requires f in def.fields
  {
    var fd := def.fields[f];
    if f in doc then Conforms(fd, doc[f]) else fd.default.Some? || fd.isOptional
  }

  /** A document is accepted iff strict mode finds no unmapped key and every field of the schema is satisfied. */
  predicate Acceptable(def: IndexDef, doc: Doc) {
    && (def.mode == Strict ==> forall k <- doc :: !Unmapped(def, k))
    && forall f <- def.fields :: FieldOk(def, doc, f)
  }

  /** The fields that are filled in. */
  function Defaulted(def: IndexDef, doc: Doc): set<string> {
    set f | f in def.fields && f !in doc && def.fields[f].default.Some?
  }

  /** The keys the mode does not remove. */
  function Kept(def: IndexDef, doc: Doc): Doc {
    map k | k in doc && !(def.mode == DropUnmapped && Unmapped(def, k)) :: doc[k]
  }

  /** The accepted output: unmapped keys dropped if the mode says so, everything else kept, and defaults filled in. */
  function Processed(def: IndexDef, doc: Doc): Doc {
    Kept(def, doc) + map f | f in Defaulted(def, doc) :: def.fields[f].default.value
  }

  /** The error names a key or field that is really at fault. */
  predicate Justified(def: IndexDef, doc: Doc, e: Error) {
    match e
    case NotAnObject => false
    case UnknownField(k) => def.mode == Strict && k in doc && Unmapped(def, k)
    case MissingRequiredField(f) =>
      f in def.fields && !FieldOk(def, doc, f) && (f in doc ==> doc[f].Null?)
    case TypeMismatch(f, t) =>
      && f in def.fields && f in doc && !doc[f].Null?
      && t == def.fields[f].fieldType && !HasType(doc[f], t)
  }

  /**
   What becomes of a key. An unmapped one is kept in dynamic mode only; a given value of a field is kept; a missing
   field has its default, and is absent only if it is optional and has none. No other key appears.
   */
  predicate KeyOk(def: IndexDef, doc: Doc, out: Doc, k: string) {
    if k in def.fields then
      var fd := def.fields[k];
      if k in doc then k in out && out[k] == doc[k]
      else if fd.default.Some? then k in out && out[k] == fd.default.value
      else k !in out && fd.isOptional
    else
      && (k in out <==> k in doc && (k == SOURCE || def.mode == Dynamic))
      && (k in out ==> out[k] == doc[k])
  }

  lemma ProcessedKey(def: IndexDef, doc: Doc, k: string)
    requires Acceptable(def, doc)
    ensures KeyOk(def, doc, Processed(def, doc), k)
  {
    assert k in def.fields ==> FieldOk(def, doc, k);
  }

  // ---------------------------------------------------------------- the procedure

  /**
   `validate_and_process_document`. The fields of the definition are visited in an arbitrary order, as a hash map gives
   them. Whatever the order, acceptance and the accepted output are the same; a rejection names a real fault, and the
   output has, key by key, what the mode and the fields say.
   */
  method ValidateAndProcess(def: IndexDef, document: Json) returns (r: Result)
    ensures !document.Object? ==> r == Err(NotAnObject)
    ensures document.Object? && Acceptable(def, document.members) ==>
              r == Ok(Object(Processed(def, document.members)))
    ensures document.Object? && !Acceptable(def, document.members) ==>
              r.Err? && Justified(def, document.members, r.error)
    ensures r.Ok? <==>
            && document.Object?
            && (def.mode == Strict ==> forall k <- document.members :: k in def.fields || k == "_source")
            && (forall f <- def.fields ::
                  var fd := def.fields[f];
                  if f !in document.members then fd.default.Some? || fd.isOptional
                  else if document.members[f].Null? then fd.isOptional
                  else match fd.fieldType
                    case Text => document.members[f].String?
                    case Keyword => document.members[f].String?
                    case Integer => document.members[f].Signed? || document.members[f].Unsigned?
                    case FloatType =>
                      document.members[f].Signed? || document.members[f].Unsigned? || document.members[f].Float?
                    case Boolean => document.members[f].Bool?
                    case Datetime =>
                      || document.members[f].String?
                      || document.members[f].Signed? || document.members[f].Unsigned? || document.members[f].Float?
                    case Bytes => document.members[f].String? || document.members[f].Array?)
    ensures r.Ok? ==>
              && r.document.Object?
              && forall k: string ::
                   var doc, out := document.members, r.document.members;
                   if k in def.fields then
                     (if k in doc then k in out && out[k] == doc[k]
                      else if def.fields[k].default.Some? then k in out && out[k] == def.fields[k].default.value
                      else k !in out && def.fields[k].isOptional)
                   else
                     && (k in out <==> k in doc && (k == "_source" || def.mode == Dynamic))
                     && (k in out ==> out[k] == doc[k])
  {
    if !document.Object? {
      return Err(NotAnObject);
    }
    var failure, kept := ApplyMode(def, document.members);
    if failure.Some? {
      return Err(failure.value);
    }
    var failure', obj := ApplyFields(def, document.members, kept);
    if failure'.Some? {
      return Err(failure'.value);
    }
    forall k: string
      ensures KeyOk(def, document.members, obj, k)
    {
      ProcessedKey(def, document.members, k);
    }
    return Ok(Object(obj));
  }

  /** The loop over the keys of the document, and the removal of those collected. */
  method ApplyMode(def: IndexDef, doc: Doc) returns (failure: Option<Error>, obj: Doc)
    ensures failure.Some? ==> failure.value.UnknownField? && Justified(def, doc, failure.value)
    ensures failure.None? ==> obj == Kept(def, doc) && (def.mode == Strict ==> forall k <- doc :: !Unmapped(def, k))
  {
    obj := doc;
    var todo := doc.Keys;
    var toRemove: set<string> := {};
    while todo != {}
      invariant todo <= doc.Keys
      invariant toRemove == set k | k in doc && k !in todo && Unmapped(def, k) && def.mode == DropUnmapped
      invariant def.mode == Strict ==> forall k <- doc :: k !in todo ==> !Unmapped(def, k)
      decreases |todo|
    {
      var key :| key in todo;
      todo := todo - {key};
      if key !in def.fields && key != SOURCE {
        match def.mode
        case Strict => return Some(UnknownField(key)), obj;
        case DropUnmapped => toRemove := toRemove + {key};
        case Dynamic =>
      }
    }
    obj := doc - toRemove;
    assert obj == Kept(def, doc);
    failure := None;
  }

  /** The loop over the schema's fields. `doc` is the original document, `kept` what the mode left of it. */
  method ApplyFields(def: IndexDef, doc: Doc, kept: Doc) returns (failure: Option<Error>, obj: Doc)
    requires kept == Kept(def, doc)
    ensures failure.Some? ==> Justified(def, doc, failure.value) && exists f <- def.fields :: !FieldOk(def, doc, f)
    ensures failure.None? ==> obj == Processed(def, doc) && forall f <- def.fields :: FieldOk(def, doc, f)
  {
    obj := kept;
    failure := None;
    var todo := def.fields.Keys;
    while todo != {}
      invariant todo <= def.fields.Keys
      invariant forall f <- def.fields :: f !in todo ==> FieldOk(def, doc, f)
      invariant obj == kept + FilledIn(def, doc, def.fields.Keys - todo)
      decreases |todo|
    {
      var f :| f in todo;
      var fd := def.fields[f];
      FieldKept(def, doc, f, todo);
      if f in obj {
        var v := obj[f];
        if v.Null? {
          if !fd.isOptional {
            return Some(MissingRequiredField(f)), obj;
          }
        } else if !HasType(v, fd.fieldType) {
          return Some(TypeMismatch(f, fd.fieldType)), obj;
        }
      } else if fd.default.Some? {
        obj := obj[f := fd.default.value];
      } else if !fd.isOptional {
        return Some(MissingRequiredField(f)), obj;
      }
      FillOne(def, doc, kept, f, todo);
      todo := todo - {f};
    }
    AllFilled(def, doc);
  }

  /** The defaults of the fields visited so far. */
  function FilledIn(def: IndexDef, doc: Doc, visited: set<string>): Doc {
    map f | f in Defaulted(def, doc) && f in visited :: def.fields[f].default.value
  }

  lemma FieldKept(def: IndexDef, doc: Doc, f: string, todo: set<string>)
    requires f in def.fields && f in todo
    ensures var obj := Kept(def, doc) + FilledIn(def, doc, def.fields.Keys - todo);
            (f in obj <==> f in doc) && (f in doc ==> obj[f] == doc[f])
  {
  }

  lemma FillOne(def: IndexDef, doc: Doc, kept: Doc, f: string, todo: set<string>)
    requires f in def.fields && f in todo && kept == Kept(def, doc)
    ensures var obj := kept + FilledIn(def, doc, def.fields.Keys - todo);
            kept + FilledIn(def, doc, def.fields.Keys - (todo - {f})) ==
            if f !in doc && def.fields[f].default.Some? then obj[f := def.fields[f].default.value] else obj
  {
    var visited, visited' := def.fields.Keys - todo, def.fields.Keys - (todo - {f});
    assert visited' == visited + {f};
  }

  lemma AllFilled(def: IndexDef, doc: Doc)
    ensures Kept(def, doc) + FilledIn(def, doc, def.fields.Keys - {}) == Processed(def, doc)
  {
  }

  // ---------------------------------------------------------------- consequences

  /**
   Processing is idempotent on an accepted document iff every default it filled in conforms to its own field: then the
   output is accepted again and comes back unchanged; otherwise the output is rejected.
   */
  lemma IdempotentIff(def: IndexDef, doc: Doc)
    requires Acceptable(def, doc)
    ensures var out := Processed(def, doc);
            && Processed(def, out) == out
            && (Acceptable(def, out) <==>
                forall f <- Defaulted(def, doc) :: Conforms(def.fields[f], def.fields[f].default.value))
  {
    var out := Processed(def, doc);
    forall f <- def.fields
      ensures FieldOk(def, out, f) <==>
              (f in Defaulted(def, doc) ==> Conforms(def.fields[f], def.fields[f].default.value))
    {
      assert FieldOk(def, doc, f);
    }
    if Acceptable(def, out) {
      assert forall f <- Defaulted(def, doc) :: FieldOk(def, out, f);
    }
    assert Defaulted(def, out) == {};
    assert Processed(def, out) == out;
  }
}
