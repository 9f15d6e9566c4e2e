/**
  The tags module (`Tags` in `NERDd/modules/tags.py`): loading the tag
  configuration, the index from attributes to the tags they trigger, and the update
  requests `update_tags` issues for one IP record.

  The configuration is a dict, here a sequence of (tag id, parameters) with distinct
  ids in the dict's order. The record's stored tags are a dict whose iteration order
  matters only for the order of obsolete-tag removals; that order is a parameter.
  The two sets the source iterates (the tags to update and a parser's variables)
  are iterated here in configuration order and first-occurrence order.
*/
module Tags {
  import opened Wrappers
  import opened Values
  import opened Ast
  import opened Parser
  import L = Lexer
  import TokenText
  import Unparse

  // ---------------------------------------------------------------------------
  // Compiling a condition or an info

  /** The outcome of building lexer, parser and interpreter for one text: a tree and
      the attributes its condition mentions, a text the interpreter rejected (the tag
      is skipped), or a lexical error on the very first lexeme, which the source
      raises outside the interpreter's `try` and so aborts loading the module. */
  datatype Compiled = Parsed(e: Expr, vars: seq<string>) | Rejected | Crash

  predicate IsRunChar(c: char)
  {
    ('a' <= c <= 'z') || ('A' <= c <= 'Z') || ('0' <= c <= '9') || c == '_' || c == '-'
  }

  /** The first match of `[a-zA-Z0-9_-]+` in a JSONPath query, if any. */
  function FirstRun(q: string): (r: Option<string>)
    ensures r.Some? ==> r.value != [] && forall i :: 0 <= i < |r.value| ==> IsRunChar(r.value[i])
    ensures r.None? <==> forall i :: 0 <= i < |q| ==> !IsRunChar(q[i])
  {
    if q == [] then None
    else if IsRunChar(q[0]) then Some(q[..L.Span(q, IsRunChar)])
    else
      var r := FirstRun(q[1..]);
      assert r.None? <==> forall i :: 1 <= i < |q| ==> !IsRunChar(q[i]) by {
        assert forall i :: 1 <= i < |q| ==> q[i] == q[1..][i - 1];
      }
      r
  }

  /** The names `Parser.read_lexem` adds to the parser's variables for one lexeme. */
  function TokenVars(t: L.Token): seq<string>
  {
    match t
    case Ident(x) => [x]
    case JsonPath(q) => if FirstRun(q).Some? then [FirstRun(q).value] else []
    case _ => []
  }

  function AllTokenVars(ts: seq<L.Token>): seq<string>
  {
    if ts == [] then [] else TokenVars(ts[0]) + AllTokenVars(ts[1..])
  }

  /** The attributes a condition mentions: every identifier and the leading field
      name of every JSONPath, each once. */
  function Variables(ts: seq<L.Token>): seq<string>
  {
    Dedup(AllTokenVars(ts))
  }

  /** `parse_condition`. */
  function ParseCondition(f: Foreign, text: string): (r: Compiled)
    ensures r.Crash? <==> L.Tokenize(text) == L.Lexed([], true)
    ensures r.Parsed? ==> !L.Tokenize(text).failed && Parse(f, L.Tokenize(text).tokens) == Some(r.e)
  {
    var lx := L.Tokenize(text);
    if lx.failed && lx.tokens == [] then Crash
    else if lx.failed then Rejected
    else match Parse(f, lx.tokens)
      case None => Rejected
      case Some(e) => Parsed(e, Variables(lx.tokens))
  }

  /** `parse_info`: the info is read as a string literal, by quoting it. */
  function ParseInfo(f: Foreign, text: string): Compiled
  {
    ParseCondition(f, "\"" + text + "\"")
  }

  // ---------------------------------------------------------------------------
  // Loading the configuration

  datatype TagParams = TagParams(condition: Option<string>, info: Option<string>)

  /** A loaded tag: its id, its condition, the attributes that condition mentions,
      and its info template. */
  datatype Tag = Tag(id: string, condition: Expr, vars: seq<string>, info: Option<Expr>)

  datatype Loaded = Loaded(tags: seq<Tag>) | LoadCrash

  predicate DistinctIds(config: seq<(string, TagParams)>)
  {
    forall i, j :: 0 <= i < j < |config| ==> config[i].0 != config[j].0
  }

  /** What `__init__` makes of one configured tag: None when it is skipped. */
  function LoadOne(f: Foreign, id: string, p: TagParams): (r: Result<Option<Tag>, ()>)
    ensures r.Ok? && r.value.Some? ==> r.value.value.id == id && p.condition.Some?
    ensures r.Ok? && r.value.Some? ==> (r.value.value.info.Some? <==> p.info.Some?)
  {
    if p.condition.None? then Ok(None)
    else match ParseCondition(f, p.condition.value)
      case Crash => Err(())
      case Rejected => Ok(None)
      case Parsed(e, vars) =>
        if p.info.None? then Ok(Some(Tag(id, e, vars, None)))
        else match ParseInfo(f, p.info.value)
          case Crash => Err(())
          case Rejected => Ok(None)
          case Parsed(ie, _) => Ok(Some(Tag(id, e, vars, Some(ie))))
  }

  /** The tag-parsing loop of `__init__`. */
  function Load(f: Foreign, config: seq<(string, TagParams)>): (r: Loaded)
    ensures r.LoadCrash? <==> exists i :: 0 <= i < |config| && LoadOne(f, config[i].0, config[i].1).Err?
    ensures r.Loaded? ==> forall k :: 0 <= k < |r.tags| ==>
      exists i :: 0 <= i < |config| && LoadOne(f, config[i].0, config[i].1) == Ok(Some(r.tags[k]))
    ensures r.Loaded? ==> forall i :: 0 <= i < |config| && LoadOne(f, config[i].0, config[i].1).value.Some? ==>
      LoadOne(f, config[i].0, config[i].1).value.value in r.tags
  {
    if config == [] then Loaded([])
    else
      var head := LoadOne(f, config[0].0, config[0].1);
      var tail := Load(f, config[1..]);
      assert forall i :: 1 <= i < |config| ==> config[i] == config[1..][i - 1];
      if head.Err? || tail.LoadCrash? then LoadCrash
      else
        var tags := (if head.value.Some? then [head.value.value] else []) + tail.tags;
        assert forall k :: 0 <= k < |tail.tags| ==> tail.tags[k] in tags;
        Loaded(tags)
  }

  /** Tag ids of loaded tags. */
  function Ids(tags: seq<Tag>): seq<string>
  {
    if tags == [] then [] else [tags[0].id] + Ids(tags[1..])
  }

  predicate UniqueIds(tags: seq<Tag>)
  {
    forall i, j :: 0 <= i < j < |tags| ==> tags[i].id != tags[j].id
  }

  // ---------------------------------------------------------------------------
  // The trigger index

  /** `self.triggers`: for each attribute, the tags whose condition mentions it, in
      loading order. */
  function Triggers(tags: seq<Tag>): (index: map<string, seq<string>>)
    decreases |tags|
  {
    if tags == [] then map[]
    else AddTrigger(Triggers(tags[..|tags| - 1]), tags[|tags| - 1].id, tags[|tags| - 1].vars)
  }

  function AddTrigger(index: map<string, seq<string>>, id: string, vars: seq<string>): map<string, seq<string>>
    decreases |vars|
  {
    if vars == [] then index
    else
      var v := vars[0];
      var index' := index[v := if v in index then index[v] + [id] else [id]];
      AddTrigger(index', id, vars[1..])
  }

  /** The attributes whose update triggers the handler, and the event that forces a
      full refresh. */
  function AttributeTriggers(tags: seq<Tag>): set<string>
  {
    Triggers(tags).Keys + {"!refresh_tags"}
  }

  /** The attribute path of one field of a stored tag. */
  function FieldPath(id: string, field: string): string
  {
    "tags." + id + "." + field
  }

  /** The attribute paths the handler declares it may change. */
  function Changes(tags: seq<Tag>): seq<string>
  {
    if tags == [] then []
    else
      var id := tags[0].id;
      [FieldPath(id, "confidence"), FieldPath(id, "time_added"), FieldPath(id, "time_modified")]
      + (if tags[0].info.Some? then [FieldPath(id, "info")] else [])
      + Changes(tags[1..])
  }

  // ---------------------------------------------------------------------------
  // Update requests

  /** A change to the stored tags of the record, before it is written as a path. */
  datatype Edit = SetField(id: string, field: string, value: Value) | RemoveTag(id: string)

  function ToRequest(e: Edit): Request
  {
    match e
    case SetField(id, field, v) => Set(FieldPath(id, field), v)
    case RemoveTag(id) => Remove("tags." + id)
  }

  function ToRequests(es: seq<Edit>): (rs: seq<Request>)
    ensures |rs| == |es|
    ensures forall k :: 0 <= k < |es| ==> rs[k] == ToRequest(es[k])
  {
    if es == [] then [] else [ToRequest(es[0])] + ToRequests(es[1..])
  }

  /** The stored tags of a record (its "tags" dict). */
  function TagsMap(rec: map<string, Value>): map<string, Value>
  {
    if "tags" in rec && rec["tags"].VMap? then rec["tags"].fields else map[]
  }

  /** The stored entry of one tag. */
  function Entry(rec: map<string, Value>, id: string): Option<map<string, Value>>
  {
    var m := TagsMap(rec);
    if id in m && m[id].VMap? then Some(m[id].fields) else None
  }

  /** What the handler reads without failing: "tags", when present, is a dict of
      dicts that each hold a "confidence". */
  predicate WellFormed(rec: map<string, Value>)
  {
    ("tags" in rec ==> rec["tags"].VMap?)
    && forall id :: id in TagsMap(rec) ==> TagsMap(rec)[id].VMap? && "confidence" in TagsMap(rec)[id].fields
  }

  /** `storedOrder` is an iteration order of the record's stored tags: each stored
      tag exactly once, and nothing else. */
  predicate StoredOrder(rec: map<string, Value>, storedOrder: seq<string>)
  {
    && (forall id :: id in storedOrder ==> id in TagsMap(rec))
    && (forall id :: id in TagsMap(rec) ==> id in storedOrder)
    && NoRepeats(storedOrder)
  }

  predicate NoRepeats<T(==)>(xs: seq<T>)
  {
    forall i, j :: 0 <= i < j < |xs| ==> xs[i] != xs[j]
  }

  /** `dict.get(key)`. */
  function Get(m: map<string, Value>, key: string): Value
  {
    if key in m then m[key] else VNone
  }

  predicate Refresh(updates: seq<(string, Value)>)
  {
    exists i :: 0 <= i < |updates| && updates[i].0 == "!refresh_tags"
  }

  predicate IsEvent(attr: string) { |attr| > 0 && attr[0] == '!' }

  /** Whether a tag is in `tags_for_update`. */
  predicate Eligible(index: map<string, seq<string>>, updates: seq<(string, Value)>, id: string)
  {
    Refresh(updates)
    || exists i :: 0 <= i < |updates| && !IsEvent(updates[i].0) && updates[i].0 in index
                   && id in index[updates[i].0]
  }

  /** The entry of `updated_tags` for a tag: confidence and info when the condition
      holds for the record, None otherwise. */
  function Outcome(f: Foreign, tag: Tag, rec: map<string, Value>): Option<(real, Value)>
  {
    var v := Eval(f, tag.condition, VMap(rec));
    if EvaluateLogical(v) then
      Some((EvaluateMathematical(v), if tag.info.Some? then Eval(f, tag.info.value, VMap(rec)) else VNone))
    else None
  }

  function InfoEdit(id: string, info: Value): seq<Edit>
  {
    if info == VNone then [] else [SetField(id, "info", info)]
  }

  /** The requests for one tag to update: add a newly satisfied tag, rewrite a
      satisfied stored tag whose confidence or info differs, remove a stored tag that
      is no longer satisfied. */
  function Decide(f: Foreign, tag: Tag, rec: map<string, Value>, now: int): (es: seq<Edit>)
    requires WellFormed(rec)
    ensures forall k :: 0 <= k < |es| ==> es[k].id == tag.id
    ensures forall k :: 0 <= k < |es| && es[k].SetField? ==>
      es[k].field in {"confidence", "time_added", "time_modified"} || (es[k].field == "info" && tag.info.Some?)
    ensures forall k :: 0 <= k < |es| && es[k].RemoveTag? ==> Entry(rec, tag.id).Some? && es == [es[k]]
  {
    var out := Outcome(f, tag, rec);
    var stored := Entry(rec, tag.id);
    if out.Some? && stored.Some? then
      var (conf, info) := out.value;
      if !PyEq(VNum(conf), stored.value["confidence"]) || !PyEq(Get(stored.value, "info"), info) then
        [SetField(tag.id, "confidence", VNum(conf))] + InfoEdit(tag.id, info)
        + [SetField(tag.id, "time_modified", VTime(now))]
      else []
    else if out.Some? then
      var (conf, info) := out.value;
      [SetField(tag.id, "confidence", VNum(conf))] + InfoEdit(tag.id, info)
      + [SetField(tag.id, "time_added", VTime(now)), SetField(tag.id, "time_modified", VTime(now))]
    else if stored.Some? then [RemoveTag(tag.id)]
    else []
  }

  function TagEdits(f: Foreign, tags: seq<Tag>, index: map<string, seq<string>>,
                    rec: map<string, Value>, updates: seq<(string, Value)>, now: int): seq<Edit>
    requires WellFormed(rec)
  {
    if tags == [] then []
    else
      (if Eligible(index, updates, tags[0].id) then Decide(f, tags[0], rec, now) else [])
      + TagEdits(f, tags[1..], index, rec, updates, now)
  }

  /** With `!refresh_tags`, every stored tag that is not configured is removed. */
  function ObsoleteEdits(tags: seq<Tag>, rec: map<string, Value>, updates: seq<(string, Value)>,
                         storedOrder: seq<string>): seq<Edit>
  {
    if !Refresh(updates) || "tags" !in rec || storedOrder == [] then []
    else
      (if storedOrder[0] in Ids(tags) then [] else [RemoveTag(storedOrder[0])])
      + ObsoleteEdits(tags, rec, updates, storedOrder[1..])
  }

  function Edits(f: Foreign, tags: seq<Tag>, rec: map<string, Value>, updates: seq<(string, Value)>,
                 now: int, storedOrder: seq<string>): seq<Edit>
    requires WellFormed(rec) && StoredOrder(rec, storedOrder)
  {
    ObsoleteEdits(tags, rec, updates, storedOrder) + TagEdits(f, tags, Triggers(tags), rec, updates, now)
  }

  /** `update_tags` for the entity `(etype, key)`: the requests it hands to the update
      manager, or None for entities that are not IP addresses. `storedOrder` is the
      iteration order of the record's stored tags, `now` the current time. The two
      ensures below only fix the shape of the result; what the requests mean (which
      paths change, which ids are removed, and that a second run changes nothing) is
      stated by `Idempotence.UpdateTagsSpec`. */
  function UpdateTags(f: Foreign, tags: seq<Tag>, etype: string, rec: map<string, Value>,
                      updates: seq<(string, Value)>, now: int, storedOrder: seq<string>): (r: Option<seq<Request>>)
    requires WellFormed(rec) && StoredOrder(rec, storedOrder)
    ensures r.None? <==> etype != "ip"
    ensures r.Some? ==> r.value == ToRequests(Edits(f, tags, rec, updates, now, storedOrder))
  {
    if etype != "ip" then None
    else Some(ToRequests(Edits(f, tags, rec, updates, now, storedOrder)))
  }
}
