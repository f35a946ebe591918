/** Audit events: redaction of sensitive fields in JSON trees, and the record form of an event. */
module Audit {
  import opened Prelude
  import opened Text
  import opened Assoc

  /** A Python value as the audit code sees it. `Opaque` is anything JSON has no form for, with its
      `str` and its truth value; a number carries its text and whether it is zero. */
  datatype Json =
    | Null
    | Bool(b: bool)
    | Num(text: string, zero: bool)
    | Str(s: string)
    | Arr(items: seq<Json>)
    | Obj(entries: seq<Entry<Json>>)
    | Opaque(text: string, truthy: bool)

  // ----- redaction -----

  const REDACTED := "[REDACTED]"

  predicate Contains(s: string, part: string) {
    exists i :: 0 <= i <= |s| - |part| && OccursAt(s, part, i)
  }

  predicate OccursAt(s: string, part: string, i: int) {
    0 <= i <= |s| - |part| && s[i..i + |part|] == part
  }

  predicate LooksSensitive(field: string) {
    var name := Fold(field);
    Contains(name, "password") || Contains(name, "secret") || Contains(name, "token") || Contains(name, "key")
  }

  predicate SensitivePart(part: string) {
    part == "password" || part == "secret" || part == "token" || part == "key"
  }

  lemma PartsHaveNoBlanks(part: string)
    requires SensitivePart(part)
    ensures part != [] && forall c :: c in part ==> !IsSpace(c)
  {
  }

  lemma InsideBlanks(left: string, s: string, right: string, l: string, part: string, r: string)
    requires forall c :: c in left || c in right ==> IsSpace(c)
    requires part != [] && forall c :: c in part ==> !IsSpace(c)
    requires left + s + right == l + part + r
    ensures |left| <= |l| && |l| + |part| <= |left| + |s|
  {
    hide IsSpace;
    var all := left + s + right;
    var last, end := |l| + |part| - 1, |left| + |s|;
    assert (l + part + r)[|l|] == part[0] && (l + part + r)[last] == part[|part| - 1];
    assert forall i :: 0 <= i < |left| ==> all[i] in left;
    assert forall i :: end <= i < |all| ==> all[i] in right;
  }

  /** Within blanks, a text without blanks occurs only inside what the blanks surround. */
  lemma FoundInside(left: string, s: string, right: string, part: string)
    requires forall c :: c in left || c in right ==> IsSpace(c)
    requires part != [] && forall c :: c in part ==> !IsSpace(c)
    ensures Contains(s, part) <==> exists l, r :: left + s + right == l + part + r
  {
    hide IsSpace, OccursAt;
    if Contains(s, part) {
      var i :| 0 <= i <= |s| - |part| && OccursAt(s, part, i);
      FoundAround(left, s, right, part, i);
    }
    if exists l, r :: left + s + right == l + part + r {
      var l, r :| left + s + right == l + part + r;
      InsideBlanks(left, s, right, l, part, r);
      CutOut(left, s, right, l, part, r);
    }
  }

  lemma FoundAround(left: string, s: string, right: string, part: string, i: int)
    requires OccursAt(s, part, i)
    ensures left + s + right == (left + s[..i]) + part + (s[i + |part|..] + right)
  {
    assert s == s[..i] + part + s[i + |part|..];
  }

  lemma CutOut(left: string, s: string, right: string, l: string, part: string, r: string)
    requires left + s + right == l + part + r && |left| <= |l| && |l| + |part| <= |left| + |s|
    ensures OccursAt(s, part, |l| - |left|)
  {
    var i := |l| - |left|;
    assert s[i..i + |part|] == (left + s + right)[|l|..|l| + |part|] == part;
  }

  /** A field is sensitive exactly when one of the four words stands somewhere in its name, in any case. */
  lemma SensitiveExactly(field: string)
    ensures LooksSensitive(field) <==>
              exists left, part, right :: SensitivePart(part) && Lower(field) == left + part + right
  {
    hide Strip, IsSpace, Contains, SensitivePart;
    var a, b := StripShape(field);
    var name := Fold(field);
    LowerIdempotent(a);
    LowerIdempotent(b);
    assert Lower(field) == Lower(a) + name + Lower(b);
    forall part | SensitivePart(part)
      ensures Contains(name, part) <==> exists l, r :: Lower(field) == l + part + r
    {
      PartsHaveNoBlanks(part);
      FoundInside(Lower(a), name, Lower(b), part);
    }
    AnyOfFour(field);
  }

  lemma AnyOfFour(field: string)
    ensures LooksSensitive(field) <==> exists part :: SensitivePart(part) && Contains(Fold(field), part)
  {
    hide Fold, Contains;
    assert SensitivePart("password") && SensitivePart("secret") && SensitivePart("token") && SensitivePart("key");
  }

  /** Elements of a list inherit the field name of the list. */
  function Redact(v: Json, field: string): Json
    decreases v
  {
    if LooksSensitive(field) then Str(REDACTED)
    else match v
      case Obj(es) =>
        Obj(seq(|es|, i requires 0 <= i < |es| => Entry(es[i].key, Redact(es[i].value, es[i].key))))
      case Arr(items) =>
        Arr(seq(|items|, i requires 0 <= i < |items| => Redact(items[i], field)))
      case _ => v
  }

  /** A place in a tree: the i-th entry of an object or the i-th element of a list, repeatedly. */
  datatype PathStep = InObject(i: nat) | InList(i: nat)

  function At(v: Json, path: seq<PathStep>): Option<Json>
    decreases |path|
  {
    if path == [] then Some(v)
    else match path[0]
      case InObject(i) => if v.Obj? && i < |v.entries| then At(v.entries[i].value, path[1..]) else None
      case InList(i) => if v.Arr? && i < |v.items| then At(v.items[i], path[1..]) else None
  }

  /** Some key on the way to the place, or the field the tree itself sits under, is sensitive. */
  predicate Masked(v: Json, field: string, path: seq<PathStep>)
    decreases |path|
  {
    || LooksSensitive(field)
    || (path != [] && match path[0]
        case InObject(i) => v.Obj? && i < |v.entries| && Masked(v.entries[i].value, v.entries[i].key, path[1..])
        case InList(i) => v.Arr? && i < |v.items| && Masked(v.items[i], field, path[1..]))
  }

  /** The same scalar, a list of the same length, or an object with the same keys. */
  predicate SameNode(a: Json, b: Json) {
    if a.Obj? then
      b.Obj? && |a.entries| == |b.entries| && forall i :: 0 <= i < |a.entries| ==> a.entries[i].key == b.entries[i].key
    else if a.Arr? then b.Arr? && |a.items| == |b.items|
    else a == b
  }

  /** Redaction hides a value exactly where the path to it first meets a sensitive key, and leaves every
      other node of the tree as it was. */
  lemma {:induction false} RedactsExactly(v: Json, field: string, path: seq<PathStep>)
    requires At(v, path).Some?
    ensures !Masked(v, field, path) ==>
              At(Redact(v, field), path).Some? && SameNode(At(v, path).value, At(Redact(v, field), path).value)
    ensures Masked(v, field, path) && (path == [] || !Masked(v, field, path[..|path| - 1])) ==>
              At(Redact(v, field), path) == Some(Str(REDACTED))
    decreases |path|
  {
    hide LooksSensitive;
    if path != [] && !LooksSensitive(field) {
      var rest := path[1..];
      assert |path| > 1 ==> path[..|path| - 1][1..] == rest[..|rest| - 1];
      match path[0] {
        case InObject(i) => RedactsExactly(v.entries[i].value, v.entries[i].key, rest);
        case InList(i) => RedactsExactly(v.items[i], field, rest);
      }
    }
  }

  /** Redaction invents nothing: whatever is in the result was at the same place before. */
  lemma {:induction false} RedactAddsNothing(v: Json, field: string, path: seq<PathStep>)
    requires At(Redact(v, field), path).Some?
    ensures At(v, path).Some?
    decreases |path|
  {
    hide LooksSensitive;
    if path != [] && !LooksSensitive(field) {
      match path[0] {
        case InObject(i) => RedactAddsNothing(v.entries[i].value, v.entries[i].key, path[1..]);
        case InList(i) => RedactAddsNothing(v.items[i], field, path[1..]);
      }
    }
  }

  lemma {:induction false} RedactIdempotent(v: Json, field: string)
    ensures Redact(Redact(v, field), field) == Redact(v, field)
    decreases v
  {
    hide LooksSensitive;
    if !LooksSensitive(field) {
      match v {
        case Obj(es) =>
          forall i | 0 <= i < |es|
            ensures Redact(Redact(es[i].value, es[i].key), es[i].key) == Redact(es[i].value, es[i].key)
          {
            RedactIdempotent(es[i].value, es[i].key);
          }
        case Arr(items) =>
          forall i | 0 <= i < |items|
            ensures Redact(Redact(items[i], field), field) == Redact(items[i], field)
          {
            RedactIdempotent(items[i], field);
          }
        case _ =>
      }
    }
  }

  lemma NotContained(s: string, part: string)
    requires part != [] && part[0] !in s
    ensures !Contains(s, part)
  {
    forall i | 0 <= i <= |s| - |part|
      ensures !OccursAt(s, part, i)
    {
      assert s[i..i + |part|][0] == s[i] && s[i] in s;
    }
  }

  /** The two value fields of an event are not sensitive themselves, so their contents survive. */
  lemma EventFieldsAreOpen()
    ensures !LooksSensitive("old_value") && !LooksSensitive("new_value")
  {
    hide LooksSensitive;
    OpenField("old_value");
    OpenField("new_value");
  }

  lemma OpenField(s: string)
    requires Stripped(s) && Lower(s) == s && 'p' !in s && 's' !in s && 't' !in s && 'k' !in s
    ensures !LooksSensitive(s)
  {
    hide Contains, Strip, Lower;
    StripOfStripped(s);
    NotContained(s, "password");
    NotContained(s, "secret");
    NotContained(s, "token");
    NotContained(s, "key");
  }

  // ----- events -----

  predicate Truthy(v: Json) {
    match v
    case Null => false
    case Bool(b) => b
    case Num(_, zero) => !zero
    case Str(s) => s != []
    case Arr(items) => items != []
    case Obj(entries) => entries != []
    case Opaque(_, truthy) => truthy
  }

  /** Python's `str`; `repr` gives the text of lists and dictionaries. */
  function StrOf(repr: Json -> string, v: Json): string {
    match v
    case Null => "None"
    case Bool(b) => if b then "True" else "False"
    case Num(text, _) => text
    case Str(s) => s
    case Opaque(text, _) => text
    case _ => repr(v)
  }

  function TextOr(repr: Json -> string, v: Json, default: string): string {
    if Truthy(v) then StrOf(repr, v) else default
  }

  function CleanText(repr: Json -> string, v: Json): Option<string> {
    var text := Strip(TextOr(repr, v, ""));
    if text == [] then None else Some(text)
  }

  function CleanJson(v: Json): Json {
    if v.Opaque? then Str(v.text) else v
  }

  function ResultName(s: string): string {
    var r := Fold(s);
    if r == "success" || r == "ok" || r == "allowed" then "success"
    else if r == "denied" || r == "rejected" || r == "forbidden" || r == "unauthorized" then "rejected"
    else "failure"
  }

  function OrElse(s: string, default: string): string {
    if s == [] then default else s
  }

  datatype AuditEvent = AuditEvent(
    id: string,
    timestamp: string,
    tenantId: Option<string>,
    userId: Option<string>,
    sessionId: Option<string>,
    action: string,
    resourceType: string,
    resourceId: string,
    oldValue: Json,
    newValue: Json,
    result: string,
    sourceIp: Option<string>,
    userAgent: Option<string>,
    metadata: seq<Entry<Json>>,
    schemaVersion: string)

  type Details = seq<Entry<Json>>

  function Field(d: Details, name: string): Json {
    Get(d, name).GetOr(Null)
  }

  predicate Reserved(key: string) {
    key in ["tenant_id", "user_id", "username", "requested_by", "session_id", "resource_type", "resource_id",
            "old_value", "new_value", "source_ip", "remote_addr", "user_agent"]
  }

  function CleanEntries(d: Details): (r: Details)
    ensures |r| == |d|
    ensures forall i :: 0 <= i < |d| ==> r[i] == Entry(d[i].key, CleanJson(d[i].value))
  {
    seq(|d|, i requires 0 <= i < |d| => Entry(d[i].key, CleanJson(d[i].value)))
  }

  function Either(a: Json, b: Json): Json {
    if Truthy(a) then a else b
  }

  function Create(repr: Json -> string, freshId: string, timestamp: string, action: string, result: string,
                  details: Details): AuditEvent {
    AuditEvent(
      freshId,
      Strip(timestamp),
      CleanText(repr, Field(details, "tenant_id")),
      CleanText(repr, Either(Either(Field(details, "user_id"), Field(details, "username")), Field(details, "requested_by"))),
      CleanText(repr, Field(details, "session_id")),
      OrElse(Strip(OrElse(action, "unknown")), "unknown"),
      Strip(TextOr(repr, Field(details, "resource_type"), "")),
      Strip(TextOr(repr, Field(details, "resource_id"), "")),
      Redact(CleanJson(Field(details, "old_value")), "old_value"),
      Redact(CleanJson(Field(details, "new_value")), "new_value"),
      ResultName(OrElse(result, "unknown")),
      CleanText(repr, Either(Field(details, "source_ip"), Field(details, "remote_addr"))),
      CleanText(repr, Field(details, "user_agent")),
      CleanEntries(Filter(details, (e: Entry<Json>) => !Reserved(e.key))),
      "1")
  }

  function OrNull(t: Option<string>): Json {
    if t.None? then Null else Str(t.value)
  }

  function ToRecord(e: AuditEvent): Details {
    [Entry("schema_version", Str(e.schemaVersion)),
     Entry("id", Str(e.id)),
     Entry("timestamp", Str(e.timestamp)),
     Entry("tenant_id", OrNull(e.tenantId)),
     Entry("user_id", OrNull(e.userId)),
     Entry("session_id", OrNull(e.sessionId)),
     Entry("action", Str(e.action)),
     Entry("resource_type", Str(e.resourceType)),
     Entry("resource_id", Str(e.resourceId)),
     Entry("old_value", e.oldValue),
     Entry("new_value", e.newValue),
     Entry("result", Str(e.result)),
     Entry("source_ip", OrNull(e.sourceIp)),
     Entry("user_agent", OrNull(e.userAgent)),
     Entry("metadata", Obj(e.metadata))]
  }

  /** A record without a schema version is a legacy event and is created anew from its details. */
  function FromRecord(repr: Json -> string, freshId: string, record: Details): AuditEvent {
    if Truthy(Field(record, "schema_version")) then
      var metadata := Field(record, "metadata");
      AuditEvent(
        TextOr(repr, Field(record, "id"), freshId),
        Strip(TextOr(repr, Field(record, "timestamp"), "")),
        CleanText(repr, Field(record, "tenant_id")),
        CleanText(repr, Field(record, "user_id")),
        CleanText(repr, Field(record, "session_id")),
        OrElse(Strip(TextOr(repr, Field(record, "action"), "unknown")), "unknown"),
        Strip(TextOr(repr, Field(record, "resource_type"), "")),
        Strip(TextOr(repr, Field(record, "resource_id"), "")),
        Redact(CleanJson(Field(record, "old_value")), "old_value"),
        Redact(CleanJson(Field(record, "new_value")), "new_value"),
        ResultName(TextOr(repr, Field(record, "result"), "failure")),
        CleanText(repr, Field(record, "source_ip")),
        CleanText(repr, Field(record, "user_agent")),
        CleanEntries(if metadata.Obj? then metadata.entries else []),
        TextOr(repr, Field(record, "schema_version"), "1"))
    else
      var details := Field(record, "details");
      Create(repr, freshId,
             Strip(TextOr(repr, Field(record, "timestamp"), "")),
             OrElse(Strip(TextOr(repr, Field(record, "event_type"), "unknown")), "unknown"),
             OrElse(Strip(TextOr(repr, Field(record, "outcome"), "failure")), "failure"),
             if details.Obj? then details.entries else [])
  }

  // ----- what an event says of the call that created it -----

  /** The value says the text, blanks aside. */
  predicate Tells(v: Json, text: string) {
    match v
    case Str(s) => s != [] && Strip(s) == text
    case Num(t, zero) => !zero && Strip(t) == text
    case Bool(b) => b && text == "True"
    case Opaque(t, truthy) => truthy && Strip(t) == text
    case _ => false
  }

  /** The values that count as none. */
  predicate Silent(v: Json) {
    v == Null || v == Str([]) || v == Bool(false) || v == Arr([]) || v == Obj([]) || (v.Num? && v.zero) || (v.Opaque? && !v.truthy)
  }

  lemma TextIsTaken(repr: Json -> string, v: Json, text: string)
    ensures Tells(v, text) ==>
              CleanText(repr, v) == (if text == [] then None else Some(text)) && Strip(TextOr(repr, v, "")) == text && !Silent(v)
    ensures Silent(v) ==> CleanText(repr, v) == None && Strip(TextOr(repr, v, "")) == []
    ensures Silent(v) <==> !Truthy(v)
  {
    hide Strip;
    StripOfStripped([]);
    StripOfStripped("True");
  }

  lemma ResultOfWord(s: string)
    ensures var r := ResultName(OrElse(s, "unknown"));
            && (r == "success" <==> Fold(s) in {"success", "ok", "allowed"})
            && (r == "rejected" <==> Fold(s) in {"denied", "rejected", "forbidden", "unauthorized"})
            && r in {"success", "rejected", "failure"}
  {
    hide Strip;
    if s == [] {
      StripOfStripped("unknown");
      StripOfStripped([]);
      assert Fold("unknown") == "unknown" && Fold([]) == [];
    }
  }

  /** The first of the fields that is not silent tells the text. */
  predicate FirstTells(details: Details, names: seq<string>, text: string) {
    names != []
    && (if Silent(Field(details, names[0])) then FirstTells(details, names[1..], text) else Tells(Field(details, names[0]), text))
  }

  predicate AllSilent(details: Details, names: seq<string>) {
    forall n :: n in names ==> Silent(Field(details, n))
  }

  /** What an optional field of an event is, from the fields of the details that may tell it. */
  ghost predicate ToldBy(details: Details, names: seq<string>, stored: Option<string>) {
    && (AllSilent(details, names) ==> stored == None)
    && forall text :: FirstTells(details, names, text) ==> stored == if text == [] then None else Some(text)
  }

  lemma OneTells(repr: Json -> string, details: Details, name: string)
    ensures ToldBy(details, [name], CleanText(repr, Field(details, name)))
    ensures forall text :: FirstTells(details, [name], text) ==> Strip(TextOr(repr, Field(details, name), "")) == text
    ensures AllSilent(details, [name]) ==> Strip(TextOr(repr, Field(details, name), "")) == []
  {
    hide Tells, Silent, CleanText, TextOr, Field, Strip;
    forall text
      ensures FirstTells(details, [name], text) ==> Tells(Field(details, name), text)
    {
      assert [name][1..] == [] && !FirstTells(details, [], text);
    }
    forall text
      ensures Tells(Field(details, name), text) ==>
                CleanText(repr, Field(details, name)) == (if text == [] then None else Some(text))
                && Strip(TextOr(repr, Field(details, name), "")) == text
    {
      TextIsTaken(repr, Field(details, name), text);
    }
    TextIsTaken(repr, Field(details, name), []);
    assert name in [name];
  }

  lemma OneOrMoreTell(repr: Json -> string, details: Details, name: string, others: seq<string>, rest: Json)
    requires ToldBy(details, others, CleanText(repr, rest))
    ensures ToldBy(details, [name] + others, CleanText(repr, Either(Field(details, name), rest)))
  {
    hide Tells, Silent, CleanText, Field;
    var names := [name] + others;
    assert names[0] == name && names[1..] == others && name in names;
    assert forall n :: n in others ==> n in names;
    forall text
      ensures Tells(Field(details, name), text) ==>
                CleanText(repr, Field(details, name)) == if text == [] then None else Some(text)
    {
      TextIsTaken(repr, Field(details, name), text);
    }
    TextIsTaken(repr, Field(details, name), []);
  }

  /** Texts passed in the details are the event's own, without the blanks around them; who acted is told by the
      first of three fields that says so, and where from by the first of two; the result is one of three, by the
      word given for it in any case. */
  lemma CreatedSays(repr: Json -> string, freshId: string, timestamp: string, action: string, result: string, details: Details)
    ensures var e := Create(repr, freshId, timestamp, action, result, details);
            && e.id == freshId && e.timestamp == Strip(timestamp)
            && e.action == (if Strip(action) == [] then "unknown" else Strip(action))
            && ToldBy(details, ["tenant_id"], e.tenantId) && ToldBy(details, ["session_id"], e.sessionId)
            && ToldBy(details, ["user_agent"], e.userAgent) && ToldBy(details, ["source_ip", "remote_addr"], e.sourceIp)
            && ToldBy(details, ["user_id", "username", "requested_by"], e.userId)
            && (forall text :: FirstTells(details, ["resource_type"], text) ==> e.resourceType == text)
            && (forall text :: FirstTells(details, ["resource_id"], text) ==> e.resourceId == text)
    ensures var e := Create(repr, freshId, timestamp, action, result, details);
            && (e.result == "success" <==> Fold(result) in {"success", "ok", "allowed"})
            && (e.result == "rejected" <==> Fold(result) in {"denied", "rejected", "forbidden", "unauthorized"})
            && e.result in {"success", "rejected", "failure"}
  {
    hide Strip, Field, Redact, Reserved, ResultName, Fold, CleanText, TextOr, Either, FirstTells, ToldBy;
    ResultOfWord(result);
    ActionOfText(action);
    OneTells(repr, details, "tenant_id");
    OneTells(repr, details, "session_id");
    OneTells(repr, details, "user_agent");
    OneTells(repr, details, "resource_type");
    OneTells(repr, details, "resource_id");
    OneTells(repr, details, "remote_addr");
    OneOrMoreTell(repr, details, "source_ip", ["remote_addr"], Field(details, "remote_addr"));
    OneTells(repr, details, "requested_by");
    OneOrMoreTell(repr, details, "username", ["requested_by"], Field(details, "requested_by"));
    assert ["username"] + ["requested_by"] == ["username", "requested_by"];
    OneOrMoreTell(repr, details, "user_id", ["username", "requested_by"], Either(Field(details, "username"), Field(details, "requested_by")));
    EitherAssociates(Field(details, "user_id"), Field(details, "username"), Field(details, "requested_by"));
    assert ["source_ip"] + ["remote_addr"] == ["source_ip", "remote_addr"];
    assert ["user_id"] + ["username", "requested_by"] == ["user_id", "username", "requested_by"];
  }

  lemma EitherAssociates(a: Json, b: Json, c: Json)
    ensures Either(Either(a, b), c) == Either(a, Either(b, c))
  {
  }

  lemma ActionOfText(action: string)
    ensures OrElse(Strip(OrElse(action, "unknown")), "unknown") == if Strip(action) == [] then "unknown" else Strip(action)
  {
    StripOfStripped([]);
    StripOfStripped("unknown");
  }

  lemma {:induction false} FilteredLookup(d: Details, keep: Entry<Json> -> bool, key: string)
    requires forall e :: keep(e) == !Reserved(e.key)
    ensures Get(Filter(d, keep), key) == if Reserved(key) then None else Get(d, key)
  {
    hide Reserved;
    if d != [] {
      FilteredLookup(d[1..], keep, key);
      if d[0].key != key { TailLookup(d, key); }
      var rest := Filter(d[1..], keep);
      if keep(d[0]) {
        assert ([d[0]] + rest)[1..] == rest;
        if d[0].key != key { TailLookup([d[0]] + rest, key); }
      }
    }
  }

  lemma CleanedLookup(d: Details, key: string)
    ensures Get(CleanEntries(d), key) == if Has(d, key) then Some(CleanJson(Get(d, key).value)) else None
  {
    hide CleanJson;
    IndexIs(CleanEntries(d), key, IndexOfKey(d, key));
  }

  /** A field of the event's own is made of the detail: its user, address, subject and values, but not its id, time,
      action, result and metadata. */
  predicate Named(key: string) {
    || key == "username" || key == "requested_by" || key == "remote_addr"
    || exists i: nat :: 3 <= i <= 13 && i != 6 && i != 11 && FieldName(i) == key
  }

  lemma NamedIsReserved(key: string)
    ensures Named(key) <==> Reserved(key)
  {
    assert FieldName(3) == "tenant_id" && FieldName(4) == "user_id" && FieldName(5) == "session_id";
    assert FieldName(7) == "resource_type" && FieldName(8) == "resource_id" && FieldName(9) == "old_value";
    assert FieldName(10) == "new_value" && FieldName(12) == "source_ip" && FieldName(13) == "user_agent";
  }

  /** A detail ends up in the event's metadata exactly if no field of its own is made for it. */
  lemma MetadataExactly(repr: Json -> string, freshId: string, timestamp: string, action: string, result: string,
                        details: Details, key: string)
    ensures var metadata := Create(repr, freshId, timestamp, action, result, details).metadata;
            Get(metadata, key) ==
              if Named(key) || !Has(details, key) then None else Some(CleanJson(Get(details, key).value))
  {
    NamedIsReserved(key);
    hide Reserved, Named, CleanJson, CleanText, Redact, ResultName, Strip, Filter, CleanEntries, IndexOfKey, Field;
    var keep := (e: Entry<Json>) => !Reserved(e.key);
    FilteredLookup(details, keep, key);
    CleanedLookup(Filter(details, keep), key);
  }

  // ----- the record form loses nothing -----

  lemma CleanTextStable(repr: Json -> string, v: Json)
    ensures CleanText(repr, OrNull(CleanText(repr, v))) == CleanText(repr, v)
  {
    StripIsStripped(TextOr(repr, v, ""));
  }

  lemma RedactedIsJson(v: Json, field: string)
    ensures CleanJson(Redact(CleanJson(v), field)) == Redact(CleanJson(v), field)
  {
    hide LooksSensitive;
  }

  lemma ResultIsStable(s: string)
    ensures var r := ResultName(s); r != [] && ResultName(r) == r
  {
    hide Strip;
    StripOfStripped("success");
    StripOfStripped("failure");
    StripOfStripped("rejected");
    assert Fold("success") == "success" && Fold("failure") == "failure" && Fold("rejected") == "rejected";
  }

  lemma ActionIsStable(s: string)
    ensures var a := OrElse(Strip(s), "unknown"); a != [] && OrElse(Strip(a), "unknown") == a
  {
    StripIsStripped(s);
    StripOfStripped("unknown");
  }

  lemma CleanEntriesStable(d: Details)
    ensures CleanEntries(CleanEntries(d)) == CleanEntries(d)
  {
  }

  /** A record's fields sit under fifteen different names. */
  function FieldName(i: nat): string {
    if i == 0 then "schema_version" else if i == 1 then "id" else if i == 2 then "timestamp"
    else if i == 3 then "tenant_id" else if i == 4 then "user_id" else if i == 5 then "session_id"
    else if i == 6 then "action" else if i == 7 then "resource_type" else if i == 8 then "resource_id"
    else if i == 9 then "old_value" else if i == 10 then "new_value" else if i == 11 then "result"
    else if i == 12 then "source_ip" else if i == 13 then "user_agent" else "metadata"
  }

  lemma NameShape(i: nat)
    requires i < 15
    ensures var s := FieldName(i);
            |s| == [14, 2, 9, 9, 7, 10, 6, 13, 11, 9, 9, 6, 9, 10, 8][i]
            && s[0] == ['s', 'i', 't', 't', 'u', 's', 'a', 'r', 'r', 'o', 'n', 'r', 's', 'u', 'm'][i]
            && Last(s) == ['n', 'd', 'p', 'd', 'd', 'd', 'n', 'e', 'd', 'e', 'e', 't', 'p', 't', 'a'][i]
  {
  }

  lemma NamesDiffer(j: nat, i: nat)
    requires j < i < 15
    ensures FieldName(j) != FieldName(i)
  {
    hide FieldName;
    NameShape(i);
    NameShape(j);
  }

  lemma RecordField(e: AuditEvent, i: nat)
    requires i < 15
    ensures Field(ToRecord(e), FieldName(i)) == ToRecord(e)[i].value
  {
    var record := ToRecord(e);
    forall j | 0 <= j < i
      ensures record[j].key != FieldName(i)
    {
      assert record[j].key == FieldName(j);
      NamesDiffer(j, i);
    }
    assert record[i].key == FieldName(i);
    IndexIs(record, FieldName(i), i);
  }

  /** Every event that `create` builds is read back from its record exactly, all fields included. */
  lemma RecordRoundTrip(repr: Json -> string, freshId: string, timestamp: string, action: string, result: string,
                        details: Details, otherId: string)
    requires freshId != []
    ensures var e := Create(repr, freshId, timestamp, action, result, details);
            FromRecord(repr, otherId, ToRecord(e)) == e
  {
    var e := Create(repr, freshId, timestamp, action, result, details);
    hide Create, Redact, CleanJson, CleanText, Field, Strip, ResultName, CleanEntries, OrElse;
    CreatedIsNormal(repr, freshId, timestamp, action, result, details);
    ReadsFields(repr, otherId, e);
  }

  /** An event whose fields are already in normal form. */
  ghost predicate Normal(repr: Json -> string, e: AuditEvent) {
    && e.id != [] && e.schemaVersion == "1"
    && Strip(e.timestamp) == e.timestamp
    && CleanText(repr, OrNull(e.tenantId)) == e.tenantId
    && CleanText(repr, OrNull(e.userId)) == e.userId
    && CleanText(repr, OrNull(e.sessionId)) == e.sessionId
    && e.action != [] && OrElse(Strip(e.action), "unknown") == e.action
    && Strip(e.resourceType) == e.resourceType && Strip(e.resourceId) == e.resourceId
    && Redact(CleanJson(e.oldValue), "old_value") == e.oldValue
    && Redact(CleanJson(e.newValue), "new_value") == e.newValue
    && e.result != [] && ResultName(e.result) == e.result
    && CleanText(repr, OrNull(e.sourceIp)) == e.sourceIp
    && CleanText(repr, OrNull(e.userAgent)) == e.userAgent
    && CleanEntries(e.metadata) == e.metadata
  }

  lemma CreatedIsNormal(repr: Json -> string, freshId: string, timestamp: string, action: string, result: string, details: Details)
    requires freshId != []
    ensures Normal(repr, Create(repr, freshId, timestamp, action, result, details))
  {
    hide Redact, CleanJson, CleanText, Field, Strip, ResultName, CleanEntries, OrElse, Reserved;
    StripIsStripped(timestamp);
    CleanTextStable(repr, Field(details, "tenant_id"));
    CleanTextStable(repr, Either(Either(Field(details, "user_id"), Field(details, "username")), Field(details, "requested_by")));
    CleanTextStable(repr, Field(details, "session_id"));
    ActionIsStable(OrElse(action, "unknown"));
    StripIsStripped(TextOr(repr, Field(details, "resource_type"), ""));
    StripIsStripped(TextOr(repr, Field(details, "resource_id"), ""));
    RedactedIsJson(Field(details, "old_value"), "old_value");
    RedactedIsJson(Field(details, "new_value"), "new_value");
    RedactIdempotent(CleanJson(Field(details, "old_value")), "old_value");
    RedactIdempotent(CleanJson(Field(details, "new_value")), "new_value");
    ResultIsStable(OrElse(result, "unknown"));
    CleanTextStable(repr, Either(Field(details, "source_ip"), Field(details, "remote_addr")));
    CleanTextStable(repr, Field(details, "user_agent"));
    CleanEntriesStable(Filter(details, (e: Entry<Json>) => !Reserved(e.key)));
  }

  /** Reading a record applies the normal forms to the event's own fields. */
  lemma ReadsFields(repr: Json -> string, otherId: string, e: AuditEvent)
    requires Normal(repr, e)
    ensures FromRecord(repr, otherId, ToRecord(e)) == e
  {
    hide Redact, CleanJson, CleanText, Field, Strip, ResultName, CleanEntries, OrElse, ToRecord;
    RecordFields(e);
  }

  lemma RecordFields(e: AuditEvent)
    ensures var r := ToRecord(e);
            && Field(r, "schema_version") == Str(e.schemaVersion) && Field(r, "id") == Str(e.id)
            && Field(r, "timestamp") == Str(e.timestamp) && Field(r, "tenant_id") == OrNull(e.tenantId)
            && Field(r, "user_id") == OrNull(e.userId) && Field(r, "session_id") == OrNull(e.sessionId)
            && Field(r, "action") == Str(e.action) && Field(r, "resource_type") == Str(e.resourceType)
            && Field(r, "resource_id") == Str(e.resourceId) && Field(r, "old_value") == e.oldValue
            && Field(r, "new_value") == e.newValue && Field(r, "result") == Str(e.result)
            && Field(r, "source_ip") == OrNull(e.sourceIp) && Field(r, "user_agent") == OrNull(e.userAgent)
            && Field(r, "metadata") == Obj(e.metadata)
  {
    hide Field;
    RecordField(e, 0); RecordField(e, 1); RecordField(e, 2); RecordField(e, 3); RecordField(e, 4);
    RecordField(e, 5); RecordField(e, 6); RecordField(e, 7); RecordField(e, 8); RecordField(e, 9);
    RecordField(e, 10); RecordField(e, 11); RecordField(e, 12); RecordField(e, 13); RecordField(e, 14);
  }
}
