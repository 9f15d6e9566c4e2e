/**
  Properties of the tags module: what loading keeps and skips, what the trigger
  index means, which tags an update touches, and what each request says.
*/
module TagRules {
  import opened Wrappers
  import opened Values
  import opened Ast
  import opened Parser
  import opened Tags
  import L = Lexer
  import TokenText
  import Unparse

  // ---------------------------------------------------------------------------
  // Loading

  /** An info never aborts loading: the quoted text always starts with a complete
      string literal. An info without '"' is read as exactly that text. */
  lemma ParseInfoNeverCrashes(f: Foreign, text: string)
    ensures ParseInfo(f, text) != Crash
    ensures '"' !in text ==> ParseInfo(f, text) == Parsed(Str(text), [])
  {
    var s := "\"" + text + "\"";
    assert s[0] == '"';
    L.SkipSpacesNoSpace(s);
    assert s[1..][|s| - 2] == '"';
    assert '"' in s[1..];
    assert L.ReadLexem(s).Ok?;
    if '"' !in text {
      assert s == ['"'] + text + ['"'] + [];
      TokenText.QuotedRead('"', text, []);
      assert L.Tokenize(s) == L.Lexed([L.Str(text)], false);
      Unparse.ParseTokens(f, Str(text));
      assert Unparse.Tokens(Str(text)) == [L.Str(text)];
      assert AllTokenVars([L.Str(text)]) == [];
    }
  }

  /** A condition whose very first lexeme is malformed aborts loading; a later
      malformed lexeme only skips the tag. */
  lemma FirstLexemeDecidesCrash(f: Foreign, id: string, cond: string, info: Option<string>)
    ensures L.Tokenize(cond) == L.Lexed([], true) ==> LoadOne(f, id, TagParams(Some(cond), info)).Err?
    ensures L.Tokenize(cond).failed && L.Tokenize(cond).tokens != [] ==>
      LoadOne(f, id, TagParams(Some(cond), info)) == Ok(None)
  {
    if info.Some? {
      ParseInfoNeverCrashes(f, info.value);
    }
  }

  /** A tag without a condition is skipped. */
  lemma MissingConditionSkipped(f: Foreign, id: string, info: Option<string>)
    ensures LoadOne(f, id, TagParams(None, info)) == Ok(None)
  {
  }

  /** Loaded tags come from distinct configuration entries, so their ids are distinct. */
  lemma {:induction false} LoadKeepsIdsUnique(f: Foreign, config: seq<(string, TagParams)>)
    requires DistinctIds(config)
    requires Load(f, config).Loaded?
    ensures UniqueIds(Load(f, config).tags)
    ensures forall k :: 0 <= k < |Load(f, config).tags| ==>
      Load(f, config).tags[k].id in ConfigIds(config)
  {
    if config != [] {
      var head := LoadOne(f, config[0].0, config[0].1);
      var tail := Load(f, config[1..]);
      DistinctTail(config);
      LoadKeepsIdsUnique(f, config[1..]);
      assert Load(f, config).tags == (if head.value.Some? then [head.value.value] else []) + tail.tags;
      assert ConfigIds(config) == [config[0].0] + ConfigIds(config[1..]);
      assert config[0].0 !in ConfigIds(config[1..]) by { ConfigIdsSpec(config); }
      if head.value.Some? {
        PrependUnique(head.value.value, tail.tags, config[0].0, ConfigIds(config[1..]));
      }
    }
  }

  /** A tag put in front of tags with ids from `rest` keeps the ids unique when its
      own id is not in `rest`. */
  lemma PrependUnique(t: Tag, tags: seq<Tag>, id: string, rest: seq<string>)
    requires UniqueIds(tags) && forall k :: 0 <= k < |tags| ==> tags[k].id in rest
    requires t.id == id && id !in rest
    ensures UniqueIds([t] + tags)
    ensures forall k :: 0 <= k < |[t] + tags| ==> ([t] + tags)[k].id in [id] + rest
  {
    var all := [t] + tags;
    forall i, j | 0 <= i < j < |all| ensures all[i].id != all[j].id {
      assert all[j] == tags[j - 1];
      if i > 0 {
        assert all[i] == tags[i - 1];
      }
    }
  }

  function ConfigIds(config: seq<(string, TagParams)>): seq<string>
  {
    if config == [] then [] else [config[0].0] + ConfigIds(config[1..])
  }

  lemma {:induction false} ConfigIdsSpec(config: seq<(string, TagParams)>)
    requires DistinctIds(config)
    requires config != []
    ensures config[0].0 !in ConfigIds(config[1..])
  {
    ConfigIdsIndex(config[1..]);
  }

  lemma {:induction false} ConfigIdsIndex(config: seq<(string, TagParams)>)
    ensures forall id :: id in ConfigIds(config) ==> exists i :: 0 <= i < |config| && config[i].0 == id
    decreases |config|
  {
    if config != [] {
      ConfigIdsIndex(config[1..]);
      forall id | id in ConfigIds(config) ensures exists i :: 0 <= i < |config| && config[i].0 == id {
        if id != config[0].0 {
          assert id in ConfigIds(config[1..]);
          var i :| 0 <= i < |config[1..]| && config[1..][i].0 == id;
          assert config[i + 1].0 == id;
        }
      }
    }
  }

  lemma DistinctTail(config: seq<(string, TagParams)>)
    requires DistinctIds(config)
    requires config != []
    ensures DistinctIds(config[1..])
  {
    forall i, j | 0 <= i < j < |config[1..]| ensures config[1..][i].0 != config[1..][j].0 {
      assert config[1..][i] == config[i + 1] && config[1..][j] == config[j + 1];
    }
  }

  // ---------------------------------------------------------------------------
  // The trigger index

  lemma {:induction false} AddTriggerSpec(index: map<string, seq<string>>, id: string, vars: seq<string>)
    ensures forall v :: v in AddTrigger(index, id, vars) <==> v in index || v in vars
    ensures forall v, x :: v in AddTrigger(index, id, vars) ==>
      (x in AddTrigger(index, id, vars)[v] <==> (v in index && x in index[v]) || (v in vars && x == id))
    decreases |vars|
  {
    if vars != [] {
      var v0 := vars[0];
      var index' := index[v0 := if v0 in index then index[v0] + [id] else [id]];
      AddTriggerSpec(index', id, vars[1..]);
      assert forall v :: v in vars <==> v == v0 || v in vars[1..];
    }
  }

  /** An attribute indexes exactly the tags whose condition mentions it. */
  lemma {:induction false} TriggersSpec(tags: seq<Tag>)
    ensures forall v :: v in Triggers(tags) <==> exists k :: 0 <= k < |tags| && v in tags[k].vars
    ensures forall v, x :: v in Triggers(tags) ==>
      (x in Triggers(tags)[v] <==> exists k :: 0 <= k < |tags| && tags[k].id == x && v in tags[k].vars)
    decreases |tags|
  {
    if tags != [] {
      var front := tags[..|tags| - 1];
      var last := tags[|tags| - 1];
      TriggersSpec(front);
      AddTriggerSpec(Triggers(front), last.id, last.vars);
      assert forall k :: 0 <= k < |front| ==> front[k] == tags[k];
      forall v | true
        ensures v in Triggers(tags) <==> exists k :: 0 <= k < |tags| && v in tags[k].vars
      {
        if v in last.vars {
          assert v in tags[|tags| - 1].vars;
        }
        if exists k :: 0 <= k < |tags| && v in tags[k].vars {
          var k :| 0 <= k < |tags| && v in tags[k].vars;
          if k < |tags| - 1 {
            assert v in front[k].vars;
          }
        }
      }
      forall v, x | v in Triggers(tags)
        ensures x in Triggers(tags)[v] <==> exists k :: 0 <= k < |tags| && tags[k].id == x && v in tags[k].vars
      {
        if exists k :: 0 <= k < |tags| && tags[k].id == x && v in tags[k].vars {
          var k :| 0 <= k < |tags| && tags[k].id == x && v in tags[k].vars;
          if k < |tags| - 1 {
            assert front[k].id == x && v in front[k].vars;
          }
        }
      }
    }
  }

  /** Without `!refresh_tags`, a tag is re-evaluated exactly when an updated
      attribute (not an event) is mentioned by its condition. */
  lemma EligibleSpec(tags: seq<Tag>, updates: seq<(string, Value)>, k: nat)
    requires UniqueIds(tags)
    requires k < |tags|
    ensures Eligible(Triggers(tags), updates, tags[k].id) <==>
      Refresh(updates) || exists i :: 0 <= i < |updates| && !IsEvent(updates[i].0) && updates[i].0 in tags[k].vars
  {
    TriggersSpec(tags);
    if exists i :: 0 <= i < |updates| && !IsEvent(updates[i].0) && updates[i].0 in tags[k].vars {
      var i :| 0 <= i < |updates| && !IsEvent(updates[i].0) && updates[i].0 in tags[k].vars;
      assert updates[i].0 in Triggers(tags) && tags[k].id in Triggers(tags)[updates[i].0];
    }
    if !Refresh(updates) && Eligible(Triggers(tags), updates, tags[k].id) {
      var i :| 0 <= i < |updates| && !IsEvent(updates[i].0) && updates[i].0 in Triggers(tags)
               && tags[k].id in Triggers(tags)[updates[i].0];
      var j :| 0 <= j < |tags| && tags[j].id == tags[k].id && updates[i].0 in tags[j].vars;
      assert j == k;
    }
  }

  // ---------------------------------------------------------------------------
  // What an update touches

  /** An edit of a tag's own entry, on a field the tag registers as a change. */
  predicate Declared(tag: Tag, e: Edit)
  {
    e.id == tag.id
    && (e.SetField? ==> e.field in {"confidence", "time_added", "time_modified"} || (e.field == "info" && tag.info.Some?))
  }

  /** Every edit of the per-tag pass belongs to an eligible tag and to a field the
      tag declares. */
  lemma {:induction false} TagEditsOrigin(f: Foreign, tags: seq<Tag>, index: map<string, seq<string>>,
                                          rec: map<string, Value>, updates: seq<(string, Value)>, now: int)
    requires WellFormed(rec)
    ensures forall e :: e in TagEdits(f, tags, index, rec, updates, now) ==>
      Eligible(index, updates, e.id) && exists j :: 0 <= j < |tags| && Declared(tags[j], e)
    ensures forall e :: e in TagEdits(f, tags, index, rec, updates, now) && e.RemoveTag? ==> e.id in TagsMap(rec)
    decreases |tags|
  {
    if tags != [] {
      TagEditsOrigin(f, tags[1..], index, rec, updates, now);
      var head := if Eligible(index, updates, tags[0].id) then Decide(f, tags[0], rec, now) else [];
      forall e | e in TagEdits(f, tags, index, rec, updates, now)
        ensures Eligible(index, updates, e.id) && exists j :: 0 <= j < |tags| && Declared(tags[j], e)
        ensures e.RemoveTag? ==> e.id in TagsMap(rec)
      {
        if e in head {
          var k :| 0 <= k < |head| && head[k] == e;
          assert Declared(tags[0], e);
        } else {
          assert e in TagEdits(f, tags[1..], index, rec, updates, now);
          var j :| 0 <= j < |tags[1..]| && Declared(tags[1..][j], e);
          assert tags[1..][j] == tags[j + 1];
        }
      }
    }
  }

  /** Obsolete removals name exactly the listed tags that are not configured, and
      only happen on `!refresh_tags`. */
  lemma {:induction false} ObsoleteSpec(tags: seq<Tag>, rec: map<string, Value>,
                                        updates: seq<(string, Value)>, storedOrder: seq<string>)
    ensures forall e :: e in ObsoleteEdits(tags, rec, updates, storedOrder) ==>
      e.RemoveTag? && e.id in storedOrder && e.id !in Ids(tags) && Refresh(updates)
    ensures Refresh(updates) && "tags" in rec ==>
      forall id :: id in storedOrder && id !in Ids(tags) ==> RemoveTag(id) in ObsoleteEdits(tags, rec, updates, storedOrder)
    decreases |storedOrder|
  {
    if storedOrder != [] {
      ObsoleteSpec(tags, rec, updates, storedOrder[1..]);
      assert forall id :: id in storedOrder <==> id == storedOrder[0] || id in storedOrder[1..];
    }
  }

  /** A list without repeats gives each obsolete removal once. */
  lemma {:induction false} ObsoleteOnce(tags: seq<Tag>, rec: map<string, Value>,
                                        updates: seq<(string, Value)>, storedOrder: seq<string>)
    requires NoRepeats(storedOrder)
    ensures NoRepeats(ObsoleteEdits(tags, rec, updates, storedOrder))
    decreases |storedOrder|
  {
    if storedOrder != [] && Refresh(updates) && "tags" in rec {
      var rest := storedOrder[1..];
      assert forall i, j :: 0 <= i < j < |rest| ==> rest[i] == storedOrder[i + 1] && rest[j] == storedOrder[j + 1];
      assert NoRepeats(rest);
      assert storedOrder[0] !in rest;
      ObsoleteOnce(tags, rec, updates, rest);
      ObsoleteSpec(tags, rec, updates, rest);
      var head := if storedOrder[0] in Ids(tags) then [] else [RemoveTag(storedOrder[0])];
      var tail := ObsoleteEdits(tags, rec, updates, rest);
      assert forall e :: e in head ==> e !in tail;
      NoRepeatsPrepend(head, tail);
    }
  }

  lemma NoRepeatsPrepend<T>(head: seq<T>, tail: seq<T>)
    requires |head| <= 1 && NoRepeats(tail)
    requires forall e :: e in head ==> e !in tail
    ensures NoRepeats(head + tail)
  {
    var es := head + tail;
    forall i, j | 0 <= i < j < |es| ensures es[i] != es[j] {
      if i < |head| {
        assert es[i] in head && es[j] == tail[j - |head|];
      } else {
        assert es[i] == tail[i - |head|] && es[j] == tail[j - |head|];
      }
    }
  }

  /** With `storedOrder` listing the record's stored tags, `!refresh_tags` removes
      exactly the stored tags that are not configured, each once; without it
      nothing is removed this way. */
  lemma ObsoleteExact(tags: seq<Tag>, rec: map<string, Value>, updates: seq<(string, Value)>, storedOrder: seq<string>)
    requires StoredOrder(rec, storedOrder)
    ensures var es := ObsoleteEdits(tags, rec, updates, storedOrder);
      && (forall e :: e in es ==> e.RemoveTag? && e.id in TagsMap(rec) && e.id !in Ids(tags))
      && (Refresh(updates) ==> forall id :: id in TagsMap(rec) && id !in Ids(tags) ==> RemoveTag(id) in es)
      && (!Refresh(updates) ==> es == [])
      && NoRepeats(es)
  {
    ObsoleteSpec(tags, rec, updates, storedOrder);
    ObsoleteOnce(tags, rec, updates, storedOrder);
  }

  /** Nothing is written for a tag unless one of the attributes its condition
      mentions was updated, or `!refresh_tags` was sent; events other than
      `!refresh_tags` trigger nothing. */
  lemma OnlyTriggeredTagsChange(f: Foreign, tags: seq<Tag>, rec: map<string, Value>,
                                updates: seq<(string, Value)>, now: int, storedOrder: seq<string>)
    requires WellFormed(rec) && StoredOrder(rec, storedOrder)
    requires !Refresh(updates)
    ensures forall e :: e in Edits(f, tags, rec, updates, now, storedOrder) ==>
      exists k, i :: (0 <= k < |tags| && 0 <= i < |updates| && tags[k].id == e.id
                      && !IsEvent(updates[i].0) && updates[i].0 in tags[k].vars)
  {
    ObsoleteSpec(tags, rec, updates, storedOrder);
    TagEditsOrigin(f, tags, Triggers(tags), rec, updates, now);
    TriggersSpec(tags);
    assert ObsoleteEdits(tags, rec, updates, storedOrder) == [];
    forall e | e in Edits(f, tags, rec, updates, now, storedOrder)
      ensures exists k, i :: (0 <= k < |tags| && 0 <= i < |updates| && tags[k].id == e.id
                              && !IsEvent(updates[i].0) && updates[i].0 in tags[k].vars)
    {
      assert e in TagEdits(f, tags, Triggers(tags), rec, updates, now);
      var i :| 0 <= i < |updates| && !IsEvent(updates[i].0) && updates[i].0 in Triggers(tags)
               && e.id in Triggers(tags)[updates[i].0];
      var k :| 0 <= k < |tags| && tags[k].id == e.id && updates[i].0 in tags[k].vars;
    }
  }

  /** Every edit is an obsolete removal or an edit of a configured tag's declared
      fields. */
  lemma EditsOrigin(f: Foreign, tags: seq<Tag>, rec: map<string, Value>,
                    updates: seq<(string, Value)>, now: int, storedOrder: seq<string>)
    requires WellFormed(rec) && StoredOrder(rec, storedOrder)
    ensures forall e :: e in Edits(f, tags, rec, updates, now, storedOrder) ==>
      e.RemoveTag? || exists j :: 0 <= j < |tags| && Declared(tags[j], e)
  {
    ObsoleteSpec(tags, rec, updates, storedOrder);
    TagEditsOrigin(f, tags, Triggers(tags), rec, updates, now);
  }

  /** Every path the handler sets is one of the paths it registered as changes. */
  lemma DeclaredChanges(f: Foreign, tags: seq<Tag>, rec: map<string, Value>,
                        updates: seq<(string, Value)>, now: int, storedOrder: seq<string>)
    requires WellFormed(rec) && StoredOrder(rec, storedOrder)
    ensures forall r :: r in ToRequests(Edits(f, tags, rec, updates, now, storedOrder)) && r.Set? ==>
      r.path in Changes(tags)
  {
    var es := Edits(f, tags, rec, updates, now, storedOrder);
    EditsOrigin(f, tags, rec, updates, now, storedOrder);
    forall r | r in ToRequests(es) && r.Set?
      ensures r.path in Changes(tags)
    {
      var n :| 0 <= n < |es| && ToRequests(es)[n] == r;
      assert es[n] in es;
      var j :| 0 <= j < |tags| && Declared(tags[j], es[n]);
      DeclaredPath(tags, j, es[n]);
    }
  }

  lemma DeclaredPath(tags: seq<Tag>, j: nat, e: Edit)
    requires j < |tags| && e.SetField? && Declared(tags[j], e)
    ensures ToRequest(e).path in Changes(tags)
  {
    ChangesSpec(tags, j);
  }

  lemma {:induction false} ChangesSpec(tags: seq<Tag>, j: nat)
    requires j < |tags|
    ensures FieldPath(tags[j].id, "confidence") in Changes(tags)
    ensures FieldPath(tags[j].id, "time_added") in Changes(tags)
    ensures FieldPath(tags[j].id, "time_modified") in Changes(tags)
    ensures tags[j].info.Some? ==> FieldPath(tags[j].id, "info") in Changes(tags)
    decreases j
  {
    if j > 0 {
      ChangesSpec(tags[1..], j - 1);
      assert tags[1..][j - 1] == tags[j];
    }
  }

  // ---------------------------------------------------------------------------
  // The decision for one tag

  /** A newly satisfied tag gets its confidence, its info when it has one, and equal
      times of addition and modification. */
  lemma AddNewTag(f: Foreign, tag: Tag, rec: map<string, Value>, now: int)
    requires WellFormed(rec)
    requires Entry(rec, tag.id).None?
    requires EvaluateLogical(Eval(f, tag.condition, VMap(rec)))
    ensures var es := Decide(f, tag, rec, now);
      var conf := EvaluateMathematical(Eval(f, tag.condition, VMap(rec)));
      es[0] == SetField(tag.id, "confidence", VNum(conf)) && conf != 0.0
      && es[|es| - 2] == SetField(tag.id, "time_added", VTime(now))
      && es[|es| - 1] == SetField(tag.id, "time_modified", VTime(now))
      && (|es| == 4 <==> tag.info.Some? && Eval(f, tag.info.value, VMap(rec)) != VNone)
      && (|es| == 3 || |es| == 4)
      && (|es| == 4 ==> es[1] == SetField(tag.id, "info", Eval(f, tag.info.value, VMap(rec))))
  {
    SatisfiedConfidenceNonZero(Eval(f, tag.condition, VMap(rec)));
  }

  /** A stored tag whose condition no longer holds is removed, and nothing else. */
  lemma RemoveUnsatisfied(f: Foreign, tag: Tag, rec: map<string, Value>, now: int)
    requires WellFormed(rec)
    requires Entry(rec, tag.id).Some?
    requires !EvaluateLogical(Eval(f, tag.condition, VMap(rec)))
    ensures Decide(f, tag, rec, now) == [RemoveTag(tag.id)]
  {
  }

  /** A stored tag is rewritten exactly when its confidence or its info changed. */
  lemma RewriteIffChanged(f: Foreign, tag: Tag, rec: map<string, Value>, now: int)
    requires WellFormed(rec)
    requires Entry(rec, tag.id).Some?
    requires Outcome(f, tag, rec).Some?
    ensures Decide(f, tag, rec, now) == [] <==>
      PyEq(VNum(Outcome(f, tag, rec).value.0), Entry(rec, tag.id).value["confidence"])
      && PyEq(Get(Entry(rec, tag.id).value, "info"), Outcome(f, tag, rec).value.1)
    ensures Decide(f, tag, rec, now) != [] ==>
      Decide(f, tag, rec, now)[|Decide(f, tag, rec, now)| - 1] == SetField(tag.id, "time_modified", VTime(now))
    ensures forall e :: e in Decide(f, tag, rec, now) ==> !(e.SetField? && e.field == "time_added")
  {
  }
}
