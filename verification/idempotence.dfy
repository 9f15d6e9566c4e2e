/**
  What the update requests of the tags module do to a record, and the idempotence
  of `update_tags`: once its requests are applied, a second run with the same
  triggering attributes issues none, provided the conditions and infos do not read
  the stored tags themselves and no satisfied tag without an info has a stored info.

  The update manager is not part of this model. Its effect is modelled as:
  setting `tags.<id>.<field>` creates the tag's dict when needed and sets the
  field; removing `tags.<id>` deletes the tag's entry.
*/
module Idempotence {
  import opened Wrappers
  import opened Values
  import opened Ast
  import opened Tags
  import TagRules

  // ---------------------------------------------------------------------------
  // Applying edits

  function ApplyEdit(rec: map<string, Value>, e: Edit): map<string, Value>
  {
    match e
    case SetField(id, field, v) =>
      var stored := TagsMap(rec);
      var entry := if id in stored && stored[id].VMap? then stored[id].fields else map[];
      rec["tags" := VMap(stored[id := VMap(entry[field := v])])]
    case RemoveTag(id) =>
      if "tags" in rec && rec["tags"].VMap? then rec["tags" := VMap(TagsMap(rec) - {id})] else rec
  }

  /** The record once the requests are applied in order. */
  function Apply(rec: map<string, Value>, es: seq<Edit>): map<string, Value>
    decreases |es|
  {
    if es == [] then rec else Apply(ApplyEdit(rec, es[0]), es[1..])
  }

  /** The same effect seen from one tag's entry. */
  function EntryStep(entry: Option<map<string, Value>>, e: Edit): Option<map<string, Value>>
  {
    match e
    case SetField(_, field, v) => Some((if entry.Some? then entry.value else map[])[field := v])
    case RemoveTag(_) => None
  }

  function FoldEntry(entry: Option<map<string, Value>>, es: seq<Edit>): Option<map<string, Value>>
    decreases |es|
  {
    if es == [] then entry else FoldEntry(EntryStep(entry, es[0]), es[1..])
  }

  /** The edits of one tag, in order. */
  function Filter(es: seq<Edit>, id: string): seq<Edit>
  {
    if es == [] then [] else (if es[0].id == id then [es[0]] else []) + Filter(es[1..], id)
  }

  /** Two records that differ at most in their stored tags. */
  predicate AgreeOffTags(rec: map<string, Value>, rec': map<string, Value>)
  {
    rec.Keys - {"tags"} == rec'.Keys - {"tags"}
    && forall k :: k in rec && k != "tags" ==> k in rec' && rec[k] == rec'[k]
  }

  /** "tags", when present, is a dict of dicts. */
  predicate AllMaps(rec: map<string, Value>)
  {
    ("tags" in rec ==> rec["tags"].VMap?) && forall id :: id in TagsMap(rec) ==> TagsMap(rec)[id].VMap?
  }

  lemma ApplyEditEntry(rec: map<string, Value>, e: Edit, id: string)
    ensures Entry(ApplyEdit(rec, e), id) == if e.id == id then EntryStep(Entry(rec, id), e) else Entry(rec, id)
  {
  }

  /** A tag's entry after the requests depends on that tag's own requests only. */
  lemma {:induction false} ApplyEntry(rec: map<string, Value>, es: seq<Edit>, id: string)
    ensures Entry(Apply(rec, es), id) == FoldEntry(Entry(rec, id), Filter(es, id))
    decreases |es|
  {
    if es != [] {
      var rec1 := ApplyEdit(rec, es[0]);
      ApplyEditEntry(rec, es[0], id);
      ApplyEntry(rec1, es[1..], id);
      if es[0].id == id {
        assert Filter(es, id) == [es[0]] + Filter(es[1..], id);
        assert ([es[0]] + Filter(es[1..], id))[1..] == Filter(es[1..], id);
      } else {
        assert Filter(es, id) == Filter(es[1..], id);
      }
    }
  }

  /** Applying the requests changes nothing outside the stored tags. */
  lemma {:induction false} ApplyFrame(rec: map<string, Value>, es: seq<Edit>)
    ensures AgreeOffTags(rec, Apply(rec, es))
    decreases |es|
  {
    if es != [] {
      ApplyFrame(ApplyEdit(rec, es[0]), es[1..]);
    }
  }

  lemma {:induction false} ApplyAllMaps(rec: map<string, Value>, es: seq<Edit>)
    requires AllMaps(rec)
    ensures AllMaps(Apply(rec, es))
    decreases |es|
  {
    if es != [] {
      ApplyAllMaps(ApplyEdit(rec, es[0]), es[1..]);
    }
  }

  lemma {:induction false} FoldAppend(entry: Option<map<string, Value>>, a: seq<Edit>, b: seq<Edit>)
    ensures FoldEntry(entry, a + b) == FoldEntry(FoldEntry(entry, a), b)
    decreases |a|
  {
    if a == [] {
      assert a + b == b;
    } else {
      assert (a + b)[0] == a[0] && (a + b)[1..] == a[1..] + b;
      FoldAppend(EntryStep(entry, a[0]), a[1..], b);
    }
  }

  lemma {:induction false} FilterAppend(a: seq<Edit>, b: seq<Edit>, id: string)
    ensures Filter(a + b, id) == Filter(a, id) + Filter(b, id)
    decreases |a|
  {
    if a == [] {
      assert a + b == b;
    } else {
      var head: seq<Edit> := if a[0].id == id then [a[0]] else [];
      assert (a + b)[0] == a[0] && (a + b)[1..] == a[1..] + b;
      assert Filter(a + b, id) == head + Filter(a[1..] + b, id);
      FilterAppend(a[1..], b, id);
      assert Filter(a, id) == head + Filter(a[1..], id);
    }
  }

  lemma {:induction false} FilterSame(es: seq<Edit>, id: string)
    requires forall k :: 0 <= k < |es| ==> es[k].id == id
    ensures Filter(es, id) == es
    decreases |es|
  {
    if es != [] {
      FilterSame(es[1..], id);
    }
  }

  lemma {:induction false} FilterOther(es: seq<Edit>, id: string)
    requires forall k :: 0 <= k < |es| ==> es[k].id != id
    ensures Filter(es, id) == []
    decreases |es|
  {
    if es != [] {
      FilterOther(es[1..], id);
    }
  }

  /** Removals leave no entry. */
  lemma {:induction false} FoldRemovals(entry: Option<map<string, Value>>, es: seq<Edit>)
    requires forall k :: 0 <= k < |es| ==> es[k].RemoveTag?
    ensures FoldEntry(entry, es) == if es == [] then entry else None
    decreases |es|
  {
    if es != [] {
      FoldRemovals(None, es[1..]);
    }
  }

  lemma {:induction false} IdsSpec(tags: seq<Tag>)
    ensures forall id :: id in Ids(tags) <==> exists k :: 0 <= k < |tags| && tags[k].id == id
    decreases |tags|
  {
    if tags != [] {
      IdsSpec(tags[1..]);
      forall id
        ensures id in Ids(tags) <==> exists k :: 0 <= k < |tags| && tags[k].id == id
      {
        if exists k :: 0 <= k < |tags| && tags[k].id == id {
          var k :| 0 <= k < |tags| && tags[k].id == id;
          if k > 0 {
            assert tags[1..][k - 1].id == id;
          }
        }
        if id in Ids(tags[1..]) {
          var k :| 0 <= k < |tags[1..]| && tags[1..][k].id == id;
          assert tags[k + 1].id == id;
        }
      }
    }
  }

  // ---------------------------------------------------------------------------
  // The edits of one tag in a run

  lemma {:induction false} FilterTagEdits(f: Foreign, tags: seq<Tag>, index: map<string, seq<string>>,
                                          rec: map<string, Value>, updates: seq<(string, Value)>,
                                          now: int, id: string)
    requires WellFormed(rec)
    requires UniqueIds(tags)
    ensures (forall k :: 0 <= k < |tags| ==> tags[k].id != id) ==>
      Filter(TagEdits(f, tags, index, rec, updates, now), id) == []
    ensures forall k :: 0 <= k < |tags| && tags[k].id == id ==>
      Filter(TagEdits(f, tags, index, rec, updates, now), id)
        == if Eligible(index, updates, id) then Decide(f, tags[k], rec, now) else []
    decreases |tags|
  {
    if tags != [] {
      var head := if Eligible(index, updates, tags[0].id) then Decide(f, tags[0], rec, now) else [];
      var tail := TagEdits(f, tags[1..], index, rec, updates, now);
      assert UniqueIds(tags[1..]) by {
        forall i, j | 0 <= i < j < |tags[1..]| ensures tags[1..][i].id != tags[1..][j].id {
          assert tags[1..][i] == tags[i + 1] && tags[1..][j] == tags[j + 1];
        }
      }
      FilterTagEdits(f, tags[1..], index, rec, updates, now, id);
      FilterAppend(head, tail, id);
      if tags[0].id == id {
        FilterSame(head, id);
        forall j | 0 <= j < |tags[1..]| ensures tags[1..][j].id != id {
          assert tags[1..][j] == tags[j + 1];
        }
        assert Filter(tail, id) == [];
      } else {
        FilterOther(head, id);
        forall k | 0 <= k < |tags| && tags[k].id == id
          ensures Filter(head + tail, id) == if Eligible(index, updates, id) then Decide(f, tags[k], rec, now) else []
        {
          assert tags[1..][k - 1] == tags[k];
        }
      }
    }
  }

  lemma {:induction false} FilterObsolete(tags: seq<Tag>, rec: map<string, Value>,
                                          updates: seq<(string, Value)>, storedOrder: seq<string>, id: string)
    ensures forall k :: 0 <= k < |Filter(ObsoleteEdits(tags, rec, updates, storedOrder), id)| ==>
      Filter(ObsoleteEdits(tags, rec, updates, storedOrder), id)[k].RemoveTag?
    ensures id in Ids(tags) ==> Filter(ObsoleteEdits(tags, rec, updates, storedOrder), id) == []
    ensures Refresh(updates) && "tags" in rec && id in storedOrder && id !in Ids(tags) ==>
      Filter(ObsoleteEdits(tags, rec, updates, storedOrder), id) != []
    decreases |storedOrder|
  {
    if Refresh(updates) && "tags" in rec && storedOrder != [] {
      var head := if storedOrder[0] in Ids(tags) then [] else [RemoveTag(storedOrder[0])];
      FilterObsolete(tags, rec, updates, storedOrder[1..], id);
      FilterAppend(head, ObsoleteEdits(tags, rec, updates, storedOrder[1..]), id);
    }
  }

  /** The entry of a configured tag after a run. */
  lemma RunEntryConfigured(f: Foreign, tags: seq<Tag>, rec: map<string, Value>, updates: seq<(string, Value)>,
                           now: int, storedOrder: seq<string>, k: nat)
    requires WellFormed(rec) && StoredOrder(rec, storedOrder)
    requires UniqueIds(tags)
    requires k < |tags|
    ensures Entry(Apply(rec, Edits(f, tags, rec, updates, now, storedOrder)), tags[k].id)
      == if Eligible(Triggers(tags), updates, tags[k].id)
         then FoldEntry(Entry(rec, tags[k].id), Decide(f, tags[k], rec, now))
         else Entry(rec, tags[k].id)
  {
    var id := tags[k].id;
    var obsolete := ObsoleteEdits(tags, rec, updates, storedOrder);
    var own := TagEdits(f, tags, Triggers(tags), rec, updates, now);
    ApplyEntry(rec, obsolete + own, id);
    FilterAppend(obsolete, own, id);
    IdsSpec(tags);
    FilterObsolete(tags, rec, updates, storedOrder, id);
    FilterTagEdits(f, tags, Triggers(tags), rec, updates, now, id);
    assert Filter(obsolete, id) + Filter(own, id) == Filter(own, id);
  }

  /** The entry of a stored tag that is not configured after a run: removed on
      `!refresh_tags`, untouched otherwise. */
  lemma RunEntryUnconfigured(f: Foreign, tags: seq<Tag>, rec: map<string, Value>,
                             updates: seq<(string, Value)>, now: int, storedOrder: seq<string>, id: string)
    requires WellFormed(rec) && StoredOrder(rec, storedOrder)
    requires UniqueIds(tags)
    requires id !in Ids(tags)
    ensures var after := Entry(Apply(rec, Edits(f, tags, rec, updates, now, storedOrder)), id);
      (Refresh(updates) ==> after.None?)
      && (!Refresh(updates) ==> after == Entry(rec, id))
  {
    var obsolete := ObsoleteEdits(tags, rec, updates, storedOrder);
    var own := TagEdits(f, tags, Triggers(tags), rec, updates, now);
    ApplyEntry(rec, obsolete + own, id);
    FilterAppend(obsolete, own, id);
    IdsSpec(tags);
    FilterObsolete(tags, rec, updates, storedOrder, id);
    FilterTagEdits(f, tags, Triggers(tags), rec, updates, now, id);
    assert Filter(obsolete, id) + Filter(own, id) == Filter(obsolete, id);
    FoldRemovals(Entry(rec, id), Filter(obsolete, id));
    if !Refresh(updates) {
      assert obsolete == [];
    } else if id in TagsMap(rec) {
      assert "tags" in rec && id in storedOrder;
    }
  }

  // ---------------------------------------------------------------------------
  // One tag, twice

  /** A stored info is stale when the tag is satisfied, evaluates no info, and yet
      its stored entry holds one. */
  predicate NoStaleInfo(f: Foreign, tag: Tag, rec: map<string, Value>)
  {
    (Entry(rec, tag.id).Some? && Outcome(f, tag, rec).Some? && Outcome(f, tag, rec).value.1 == VNone)
    ==> Get(Entry(rec, tag.id).value, "info") == VNone
  }

  /** Writing confidence, info and further fields gives an entry that matches the
      written confidence and info. */
  lemma FoldWritten(entry: Option<map<string, Value>>, id: string, conf: real, info: Value, tail: seq<Edit>)
    requires entry.Some? && info == VNone ==> Get(entry.value, "info") == VNone
    requires forall k :: 0 <= k < |tail| ==> tail[k].SetField? && tail[k].field !in {"confidence", "info"}
    ensures var r := FoldEntry(entry, [SetField(id, "confidence", VNum(conf))] + InfoEdit(id, info) + tail);
      r.Some? && "confidence" in r.value && r.value["confidence"] == VNum(conf) && Get(r.value, "info") == info
  {
    var first := [SetField(id, "confidence", VNum(conf))] + InfoEdit(id, info);
    FoldAppend(entry, first, tail);
    FoldAppend(entry, [SetField(id, "confidence", VNum(conf))], InfoEdit(id, info));
    FoldKeeps(FoldEntry(entry, first), tail);
  }

  lemma {:induction false} FoldKeeps(entry: Option<map<string, Value>>, tail: seq<Edit>)
    requires entry.Some?
    requires forall k :: 0 <= k < |tail| ==> tail[k].SetField? && tail[k].field !in {"confidence", "info"}
    ensures FoldEntry(entry, tail).Some?
    ensures "confidence" in entry.value ==>
      ("confidence" in FoldEntry(entry, tail).value && FoldEntry(entry, tail).value["confidence"] == entry.value["confidence"])
    ensures Get(FoldEntry(entry, tail).value, "info") == Get(entry.value, "info")
    decreases |tail|
  {
    if tail != [] {
      FoldKeeps(EntryStep(entry, tail[0]), tail[1..]);
    }
  }

  /** After a tag's own requests, its entry agrees with what its condition
      yields: absent when unsatisfied, otherwise holding an equal confidence and
      an equal info. */
  lemma DecideResult(f: Foreign, tag: Tag, rec: map<string, Value>, now: int)
    requires WellFormed(rec)
    requires NoStaleInfo(f, tag, rec)
    ensures var r := FoldEntry(Entry(rec, tag.id), Decide(f, tag, rec, now));
      var out := Outcome(f, tag, rec);
      (out.None? ==> r.None?)
      && (out.Some? ==>
            (r.Some? && "confidence" in r.value
             && PyEq(VNum(out.value.0), r.value["confidence"]) && PyEq(Get(r.value, "info"), out.value.1)))
  {
    var out := Outcome(f, tag, rec);
    var stored := Entry(rec, tag.id);
    var es := Decide(f, tag, rec, now);
    if out.Some? {
      var (conf, info) := out.value;
      PyEqReflexive(VNum(conf));
      PyEqReflexive(info);
      if stored.Some? {
        if es != [] {
          FoldWritten(stored, tag.id, conf, info, [SetField(tag.id, "time_modified", VTime(now))]);
        }
      } else {
        FoldWritten(stored, tag.id, conf, info,
                    [SetField(tag.id, "time_added", VTime(now)), SetField(tag.id, "time_modified", VTime(now))]);
      }
    }
  }

  /** A second decision on the updated entry issues nothing. */
  lemma DecideTwice(f: Foreign, tag: Tag, rec: map<string, Value>, rec': map<string, Value>, now: int, now': int)
    requires WellFormed(rec) && WellFormed(rec')
    requires NoStaleInfo(f, tag, rec)
    requires Outcome(f, tag, rec') == Outcome(f, tag, rec)
    requires Entry(rec', tag.id) == FoldEntry(Entry(rec, tag.id), Decide(f, tag, rec, now))
    ensures Decide(f, tag, rec', now') == []
  {
    DecideResult(f, tag, rec, now);
  }

  // ---------------------------------------------------------------------------
  // Conditions that do not read the stored tags

  /** The first segment of a dotted attribute path. */
  function Root(x: string): string
  {
    if '.' in x then x[..FirstDot(x)] else x
  }

  /** An expression that reads no part of the record's stored tags. A JSONPath may
      read anything. */
  predicate NoTagsRead(e: Expr)
  {
    match e
    case Var(x) => Root(x) != "tags"
    case JsonPath(_) => false
    case Numb(_) => true
    case Str(t) => forall n :: n in Placeholders(t) ==> Root(n) != "tags"
    case Bop(_, l, r) => NoTagsRead(l) && NoTagsRead(r)
    case In(item, c, _) => NoTagsRead(item) && NoTagsRead(c)
    case UnMinus(x) => NoTagsRead(x)
    case UnNeg(x) => NoTagsRead(x)
  }

  lemma LookupFrame(rec: map<string, Value>, rec': map<string, Value>, x: string)
    requires AgreeOffTags(rec, rec')
    requires Root(x) != "tags"
    ensures Lookup(VMap(rec), x) == Lookup(VMap(rec'), x)
  {
    var key := Root(x);
    assert key in rec.Keys - {"tags"} <==> key in rec'.Keys - {"tags"};
  }

  lemma {:induction false} SubstituteFrame(f: Foreign, t: string, names: seq<string>,
                                           rec: map<string, Value>, rec': map<string, Value>)
    requires AgreeOffTags(rec, rec')
    requires forall n :: n in names ==> Root(n) != "tags"
    ensures Substitute(f, t, names, VMap(rec)) == Substitute(f, t, names, VMap(rec'))
    decreases |names|
  {
    if names != [] {
      LookupFrame(rec, rec', names[0]);
      var v := Lookup(VMap(rec), names[0]);
      var t' := if v == VNone then t else ReplaceAll(t, "{" + names[0] + "}", f.show(v));
      SubstituteFrame(f, t', names[1..], rec, rec');
    }
  }

  /** An expression that reads no stored tag has the same value on records that
      differ only in their stored tags. */
  lemma {:induction false} EvalFrame(f: Foreign, e: Expr, rec: map<string, Value>, rec': map<string, Value>)
    requires AgreeOffTags(rec, rec')
    requires NoTagsRead(e)
    ensures Eval(f, e, VMap(rec)) == Eval(f, e, VMap(rec'))
  {
    match e
    case Var(x) => LookupFrame(rec, rec', x);
    case JsonPath(_) =>
    case Numb(_) =>
    case Str(t) => SubstituteFrame(f, t, Placeholders(t), rec, rec');
    case Bop(_, l, r) => EvalFrame(f, l, rec, rec'); EvalFrame(f, r, rec, rec');
    case In(item, c, _) => EvalFrame(f, item, rec, rec'); EvalFrame(f, c, rec, rec');
    case UnMinus(x) => EvalFrame(f, x, rec, rec');
    case UnNeg(x) => EvalFrame(f, x, rec, rec');
  }

  predicate ReadsNoTags(tag: Tag)
  {
    NoTagsRead(tag.condition) && (tag.info.Some? ==> NoTagsRead(tag.info.value))
  }

  lemma OutcomeFrame(f: Foreign, tag: Tag, rec: map<string, Value>, rec': map<string, Value>)
    requires AgreeOffTags(rec, rec')
    requires ReadsNoTags(tag)
    ensures Outcome(f, tag, rec') == Outcome(f, tag, rec)
  {
    EvalFrame(f, tag.condition, rec, rec');
    if tag.info.Some? {
      EvalFrame(f, tag.info.value, rec, rec');
    }
  }

  // ---------------------------------------------------------------------------
  // The whole handler, twice

  lemma {:induction false} ObsoleteNone(tags: seq<Tag>, rec: map<string, Value>,
                                        updates: seq<(string, Value)>, storedOrder: seq<string>)
    requires forall i :: 0 <= i < |storedOrder| ==> storedOrder[i] in Ids(tags)
    ensures ObsoleteEdits(tags, rec, updates, storedOrder) == []
    decreases |storedOrder|
  {
    if storedOrder != [] {
      ObsoleteNone(tags, rec, updates, storedOrder[1..]);
    }
  }

  lemma {:induction false} TagEditsNone(f: Foreign, tags: seq<Tag>, index: map<string, seq<string>>,
                                        rec: map<string, Value>, updates: seq<(string, Value)>, now: int)
    requires WellFormed(rec)
    requires forall k :: 0 <= k < |tags| && Eligible(index, updates, tags[k].id) ==> Decide(f, tags[k], rec, now) == []
    ensures TagEdits(f, tags, index, rec, updates, now) == []
    decreases |tags|
  {
    if tags != [] {
      assert forall k :: 1 <= k < |tags| ==> tags[1..][k - 1] == tags[k];
      TagEditsNone(f, tags[1..], index, rec, updates, now);
    }
  }

  /** The record after a run is still well formed. */
  lemma RunWellFormed(f: Foreign, tags: seq<Tag>, rec: map<string, Value>, updates: seq<(string, Value)>,
                      now: int, storedOrder: seq<string>)
    requires WellFormed(rec) && StoredOrder(rec, storedOrder)
    requires UniqueIds(tags)
    requires forall k :: 0 <= k < |tags| ==> NoStaleInfo(f, tags[k], rec)
    ensures WellFormed(Apply(rec, Edits(f, tags, rec, updates, now, storedOrder)))
  {
    var es := Edits(f, tags, rec, updates, now, storedOrder);
    var rec' := Apply(rec, es);
    ApplyAllMaps(rec, es);
    IdsSpec(tags);
    forall id | id in TagsMap(rec') ensures "confidence" in TagsMap(rec')[id].fields {
      assert Entry(rec', id).Some?;
      if id in Ids(tags) {
        var k :| 0 <= k < |tags| && tags[k].id == id;
        RunEntryConfigured(f, tags, rec, updates, now, storedOrder, k);
        if Eligible(Triggers(tags), updates, id) {
          DecideResult(f, tags[k], rec, now);
        }
      } else {
        RunEntryUnconfigured(f, tags, rec, updates, now, storedOrder, id);
      }
    }
  }

  /** `update_tags` is idempotent: applying its requests and running it again with
      the same updates issues no request. */
  lemma Idempotent(f: Foreign, tags: seq<Tag>, rec: map<string, Value>, updates: seq<(string, Value)>,
                   now: int, now': int, storedOrder: seq<string>, storedOrder': seq<string>)
    requires WellFormed(rec)
    requires UniqueIds(tags)
    requires forall k :: 0 <= k < |tags| ==> ReadsNoTags(tags[k]) && NoStaleInfo(f, tags[k], rec)
    requires StoredOrder(rec, storedOrder)
    requires StoredOrder(Apply(rec, Edits(f, tags, rec, updates, now, storedOrder)), storedOrder')
    ensures var rec' := Apply(rec, Edits(f, tags, rec, updates, now, storedOrder));
      WellFormed(rec') && Edits(f, tags, rec', updates, now', storedOrder') == []
  {
    var es := Edits(f, tags, rec, updates, now, storedOrder);
    var rec' := Apply(rec, es);
    RunWellFormed(f, tags, rec, updates, now, storedOrder);
    ApplyFrame(rec, es);
    IdsSpec(tags);
    if Refresh(updates) {
      ApplyAllMaps(rec, es);
      forall id | id !in Ids(tags) ensures id !in TagsMap(rec') {
        RunEntryUnconfigured(f, tags, rec, updates, now, storedOrder, id);
      }
      ObsoleteNone(tags, rec', updates, storedOrder');
    }
    forall k | 0 <= k < |tags| && Eligible(Triggers(tags), updates, tags[k].id)
      ensures Decide(f, tags[k], rec', now') == []
    {
      RunEntryConfigured(f, tags, rec, updates, now, storedOrder, k);
      OutcomeFrame(f, tags[k], rec, rec');
      DecideTwice(f, tags[k], rec, rec', now, now');
    }
    TagEditsNone(f, tags, Triggers(tags), rec', updates, now');
  }

  /** `update_tags` for an entity: no requests unless it is an IP address; for an
      IP, requests that set only fields the handler registered as changes, of tags
      that are configured and due for an update, and remove only stored tags, among
      them on `!refresh_tags` every stored tag that is no longer configured. Once the
      requests are applied, running the handler again with the same updates issues
      none. */
  lemma UpdateTagsSpec(f: Foreign, tags: seq<Tag>, etype: string, rec: map<string, Value>,
                       updates: seq<(string, Value)>, now: int, storedOrder: seq<string>,
                       now': int, storedOrder': seq<string>)
    requires WellFormed(rec) && StoredOrder(rec, storedOrder)
    ensures var r := UpdateTags(f, tags, etype, rec, updates, now, storedOrder);
      var es := Edits(f, tags, rec, updates, now, storedOrder);
      && (r.None? <==> etype != "ip")
      && (r.Some? ==> r.value == ToRequests(es))
      && (r.Some? ==> forall q :: q in r.value && q.Set? ==> q.path in Changes(tags))
      && (forall e :: e in es && e.SetField? ==>
            Eligible(Triggers(tags), updates, e.id) && exists j :: 0 <= j < |tags| && TagRules.Declared(tags[j], e))
      && (forall e :: e in es && e.RemoveTag? ==> e.id in TagsMap(rec))
      && (Refresh(updates) ==> forall id :: id in TagsMap(rec) && id !in Ids(tags) ==> RemoveTag(id) in es)
    ensures var rec' := Apply(rec, Edits(f, tags, rec, updates, now, storedOrder));
      etype == "ip" && UniqueIds(tags) && StoredOrder(rec', storedOrder')
      && (forall k :: 0 <= k < |tags| ==> ReadsNoTags(tags[k]) && NoStaleInfo(f, tags[k], rec))
      ==> WellFormed(rec') && UpdateTags(f, tags, etype, rec', updates, now', storedOrder') == Some([])
  {
    var es := Edits(f, tags, rec, updates, now, storedOrder);
    var obsolete := ObsoleteEdits(tags, rec, updates, storedOrder);
    var own := TagEdits(f, tags, Triggers(tags), rec, updates, now);
    TagRules.ObsoleteExact(tags, rec, updates, storedOrder);
    TagRules.TagEditsOrigin(f, tags, Triggers(tags), rec, updates, now);
    TagRules.DeclaredChanges(f, tags, rec, updates, now, storedOrder);
    assert forall e :: e in es <==> e in obsolete || e in own;
    var rec' := Apply(rec, es);
    if etype == "ip" && UniqueIds(tags) && StoredOrder(rec', storedOrder')
      && (forall k :: 0 <= k < |tags| ==> ReadsNoTags(tags[k]) && NoStaleInfo(f, tags[k], rec)) {
      Idempotent(f, tags, rec, updates, now, now', storedOrder, storedOrder');
      assert ToRequests([]) == [];
    }
  }

  // ---------------------------------------------------------------------------
  // Without the stale-info premise

  /** A satisfied tag without an info whose stored entry still holds an info is
      rewritten on every run: its confidence and modification time are set again
      while the stored info stays. */
  lemma StaleInfoRefreshes(f: Foreign, now: int, now': int)
    ensures var tag := Tag("t", Numb(1.0), [], None);
      var rec := map["tags" := VMap(map["t" := VMap(map["confidence" := VNum(1.0), "info" := VStr("old")])])];
      var es := Decide(f, tag, rec, now);
      WellFormed(rec)
      && es == [SetField("t", "confidence", VNum(1.0)), SetField("t", "time_modified", VTime(now))]
      && WellFormed(Apply(rec, es))
      && Decide(f, tag, Apply(rec, es), now') == [SetField("t", "confidence", VNum(1.0)), SetField("t", "time_modified", VTime(now'))]
  {
    var tag := Tag("t", Numb(1.0), [], None);
    var entry := map["confidence" := VNum(1.0), "info" := VStr("old")];
    var rec := map["tags" := VMap(map["t" := VMap(entry)])];
    assert Outcome(f, tag, rec) == Some((1.0, VNone));
    assert Get(entry, "info") == VStr("old");
    var es := Decide(f, tag, rec, now);
    assert es == [SetField("t", "confidence", VNum(1.0)), SetField("t", "time_modified", VTime(now))];
    var entry' := entry["confidence" := VNum(1.0)]["time_modified" := VTime(now)];
    var e1 := SetField("t", "confidence", VNum(1.0));
    var e2 := SetField("t", "time_modified", VTime(now));
    var rec1 := map["tags" := VMap(map["t" := VMap(entry["confidence" := VNum(1.0)])])];
    assert TagsMap(rec) == map["t" := VMap(entry)];
    var entry1 := entry["confidence" := VNum(1.0)];
    assert TagsMap(rec)["t" := VMap(entry1)] == map["t" := VMap(entry1)];
    assert rec["tags" := VMap(map["t" := VMap(entry1)])] == rec1;
    assert ApplyEdit(rec, e1) == rec1;
    assert TagsMap(rec1) == map["t" := VMap(entry["confidence" := VNum(1.0)])];
    assert TagsMap(rec1)["t" := VMap(entry')] == map["t" := VMap(entry')];
    assert rec1["tags" := VMap(map["t" := VMap(entry')])] == map["tags" := VMap(map["t" := VMap(entry')])];
    assert ApplyEdit(rec1, e2) == map["tags" := VMap(map["t" := VMap(entry')])];
    assert es[1..] == [e2] && es[1..][1..] == [];
    assert Apply(rec, es) == Apply(rec1, [e2]);
    assert [e2][1..] == [];
    assert Apply(rec1, [e2]) == Apply(ApplyEdit(rec1, e2), []);
    assert Apply(rec, es) == map["tags" := VMap(map["t" := VMap(entry')])];
    assert Get(entry', "info") == VStr("old");
    assert Outcome(f, tag, Apply(rec, es)) == Some((1.0, VNone));
  }
}
