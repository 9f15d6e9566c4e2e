/**
  The hostname classifier (`HostnameClass` in `NERDd/modules/hostname.py`): the
  known-domain table, the dotted suffixes of a hostname that are looked up in it,
  the service tags of the matching regular expressions, and the update requests
  `hostname_classify` returns. Compiled regular expressions are an opaque type
  whose `search` is a parameter.
*/
module Hostname {
  import opened Wrappers
  import opened Values

  const KnownDomainPath := "service.known_domain_service"
  const RegexServicePath := "service.hostname_regex_service"

  // ---------------------------------------------------------------------------
  // The known-domain table

  /** `convert_domain_list_to_dict`: each (domain, service) pair is stored in turn,
      so a later pair for the same domain replaces an earlier one. */
  function DomainTable(pairs: seq<(string, string)>): (table: map<string, string>)
    ensures forall d :: d in table <==> exists j :: 0 <= j < |pairs| && pairs[j].0 == d
  {
    if pairs == [] then map[]
    else
      var init := pairs[..|pairs| - 1];
      var last := pairs[|pairs| - 1];
      assert forall j :: 0 <= j < |init| ==> init[j] == pairs[j];
      DomainTable(init)[last.0 := last.1]
  }

  /** The service stored for a domain is that of its last pair. */
  lemma {:induction false} DomainTableLastWins(pairs: seq<(string, string)>, j: nat)
    requires j < |pairs|
    requires forall k :: j < k < |pairs| ==> pairs[k].0 != pairs[j].0
    ensures pairs[j].0 in DomainTable(pairs) && DomainTable(pairs)[pairs[j].0] == pairs[j].1
  {
    if j < |pairs| - 1 {
      var init := pairs[..|pairs| - 1];
      assert init[j] == pairs[j];
      forall k | j < k < |init| ensures init[k].0 != init[j].0 {
        assert init[k] == pairs[k];
      }
      DomainTableLastWins(init, j);
    }
  }

  // ---------------------------------------------------------------------------
  // Dotted suffixes

  /** `hostname.count(".")`. */
  function CountDots(s: string): (n: nat)
    ensures n <= |s|
  {
    if s == [] then 0 else (if s[0] == '.' then 1 else 0) + CountDots(s[1..])
  }

  lemma {:induction false} CountDotsAppend(a: string, b: string)
    ensures CountDots(a + b) == CountDots(a) + CountDots(b)
    decreases |a|
  {
    if a != [] {
      assert (a + b)[0] == a[0] && (a + b)[1..] == a[1..] + b;
      assert CountDots(a + b) == (if a[0] == '.' then 1 else 0) + CountDots(a[1..] + b);
      CountDotsAppend(a[1..], b);
    } else {
      assert a + b == b;
    }
  }

  /** The text after the first dot of s. */
  function AfterFirstDot(s: string): (r: string)
    requires CountDots(s) > 0
    ensures |r| < |s| && CountDots(r) == CountDots(s) - 1
  {
    if s[0] == '.' then s[1..] else AfterFirstDot(s[1..])
  }

  /** What follows the first dot: a suffix of s, preceded by a dot, with no dot
      before that one. */
  lemma {:induction false} AfterFirstDotSpec(s: string)
    requires CountDots(s) > 0
    ensures var r := AfterFirstDot(s); var cut := |s| - |r| - 1;
      && s == s[..cut] + ['.'] + r && CountDots(s[..cut]) == 0
  {
    if s[0] != '.' {
      AfterFirstDotSpec(s[1..]);
      var r := AfterFirstDot(s);
      var cut := |s| - |r| - 1;
      assert s[1..][..cut - 1] == s[1..cut];
      assert s[..cut] == [s[0]] + s[1..cut];
      CountDotsAppend([s[0]], s[1..cut]);
      assert s == [s[0]] + s[1..];
    } else {
      assert s == [] + ['.'] + s[1..];
    }
  }

  /** `hostname.split(".", i)[-1]` for i up to the number of dots: the text after
      the i-th dot, or the whole hostname for i = 0. */
  function AfterDots(h: string, i: nat): string
    requires i <= CountDots(h)
    decreases i
  {
    if i == 0 then h else AfterDots(AfterFirstDot(h), i - 1)
  }

  /** Candidate i has i dots fewer than the hostname, and is at least i shorter. */
  lemma {:induction false} AfterDotsCount(h: string, i: nat)
    requires i <= CountDots(h)
    ensures CountDots(AfterDots(h, i)) == CountDots(h) - i && |AfterDots(h, i)| <= |h| - i
    decreases i
  {
    if i > 0 {
      AfterDotsCount(AfterFirstDot(h), i - 1);
    }
  }

  /** r is what follows the i-th dot of h: a suffix of h whose text before it
      holds i dots, the last of them just before r; for i = 0, h itself. */
  ghost predicate EndsAfter(h: string, r: string, i: nat)
  {
    && |r| + i <= |h| && h[|h| - |r|..] == r && CountDots(h[..|h| - |r|]) == i
    && (i == 0 ==> r == h)
    && (i > 0 ==> h[|h| - |r| - 1] == '.')
  }

  /** Candidate i is the suffix of the hostname after exactly i dots. */
  lemma {:induction false} AfterDotsSpec(h: string, i: nat)
    requires i <= CountDots(h)
    ensures EndsAfter(h, AfterDots(h, i), i)
    decreases i
  {
    AfterDotsCount(h, i);
    if i == 0 {
      assert h[..0] == [];
    } else {
      var t := AfterFirstDot(h);
      AfterFirstDotSpec(h);
      AfterDotsSpec(t, i - 1);
      assert AfterDots(h, i) == AfterDots(t, i - 1);
      SuffixStep(h, h[..|h| - |t| - 1], t, AfterDots(t, i - 1), i);
    }
  }

  /** The step of AfterDotsSpec on plain texts: h is a dotless text, a dot and t. */
  lemma SuffixStep(h: string, pre: string, t: string, r: string, i: nat)
    requires h == pre + ['.'] + t && CountDots(pre) == 0 && i > 0
    requires EndsAfter(t, r, i - 1)
    ensures EndsAfter(h, r, i)
  {
    var front := pre + ['.'];
    SuffixOfSuffix(h, front, t, r);
    DotThenRest(pre, t[..|t| - |r|]);
  }

  /** A dotless text, a dot, then u: one dot more than u. */
  lemma DotThenRest(pre: string, u: string)
    requires CountDots(pre) == 0
    ensures CountDots(pre + ['.'] + u) == 1 + CountDots(u)
  {
    CountDotsAppend(pre + ['.'], u);
    CountDotsAppend(pre, ['.']);
    assert ['.'][1..] == [];
  }

  /** A suffix r of t, where h = front + t, is a suffix of h. */
  lemma SuffixOfSuffix(h: string, front: string, t: string, r: string)
    requires h == front + t && |r| <= |t| && t[|t| - |r|..] == r
    ensures h[|h| - |r|..] == r && h[..|h| - |r|] == front + t[..|t| - |r|]
    ensures |r| < |t| ==> h[|h| - |r| - 1] == t[|t| - |r| - 1]
    ensures |r| == |t| && front != [] ==> h[|h| - |r| - 1] == front[|front| - 1]
  {
  }

  /** Later candidates are strictly shorter, so the first match is the longest
      matching suffix. */
  lemma {:induction false} CandidatesShrink(h: string, i: nat, j: nat)
    requires i < j <= CountDots(h)
    ensures |AfterDots(h, j)| < |AfterDots(h, i)|
    decreases j - i
  {
    if i + 1 < j {
      CandidatesShrink(h, i + 1, j);
    }
    AfterDotsNext(h, i);
  }

  /** One more dot cuts the previous candidate at its first dot. */
  lemma {:induction false} AfterDotsNext(h: string, i: nat)
    requires i < CountDots(h)
    ensures CountDots(AfterDots(h, i)) > 0
    ensures AfterDots(h, i + 1) == AfterFirstDot(AfterDots(h, i))
    decreases i
  {
    AfterDotsCount(h, i);
    if i > 0 {
      AfterDotsNext(AfterFirstDot(h), i - 1);
    }
  }

  /** Every candidate still holds a dot: the bare last label is never looked up,
      and a hostname without dots looks up nothing. */
  lemma CandidateHasDot(h: string, i: nat)
    requires i < CountDots(h)
    ensures '.' in AfterDots(h, i)
  {
    AfterDotsCount(h, i);
    DotCounted(AfterDots(h, i));
  }

  lemma {:induction false} DotCounted(s: string)
    requires CountDots(s) > 0
    ensures '.' in s
  {
    if s[0] != '.' {
      DotCounted(s[1..]);
    }
  }

  // ---------------------------------------------------------------------------
  // The known-domain search

  /** The loop over `range(0, dot_count)` from candidate i on: the service of the
      first candidate found in the table. */
  function KnownFrom(h: string, known: map<string, string>, i: nat): (r: Option<string>)
    requires i <= CountDots(h)
    decreases CountDots(h) - i
  {
    if i == CountDots(h) then None
    else if AfterDots(h, i) in known then Some(known[AfterDots(h, i)])
    else KnownFrom(h, known, i + 1)
  }

  function KnownService(h: string, known: map<string, string>): Option<string>
  {
    KnownFrom(h, known, 0)
  }

  /** The candidate index `break` leaves the loop at: the least candidate in the
      table. */
  ghost predicate FirstKnown(h: string, known: map<string, string>, i: nat)
  {
    && i < CountDots(h) && AfterDots(h, i) in known
    && forall j :: 0 <= j < i ==> AfterDots(h, j) !in known
  }

  /** No candidate is in the table. */
  ghost predicate NoneKnown(h: string, known: map<string, string>)
  {
    forall j :: 0 <= j < CountDots(h) ==> AfterDots(h, j) !in known
  }

  /** A service is found exactly when some candidate is in the table, and it is the
      service of the first such candidate. */
  lemma KnownServiceSpec(h: string, known: map<string, string>)
    ensures KnownService(h, known).None? <==> NoneKnown(h, known)
    ensures KnownService(h, known).Some? ==>
      exists i :: FirstKnown(h, known, i) && KnownService(h, known).value == known[AfterDots(h, i)]
  {
    KnownFromSpec(h, known, 0);
  }

  lemma {:induction false} KnownFromSpec(h: string, known: map<string, string>, i: nat)
    requires i <= CountDots(h)
    requires forall j :: 0 <= j < i ==> AfterDots(h, j) !in known
    ensures KnownFrom(h, known, i).None? <==> NoneKnown(h, known)
    ensures KnownFrom(h, known, i).Some? ==>
      exists k :: FirstKnown(h, known, k) && KnownFrom(h, known, i).value == known[AfterDots(h, k)]
    decreases CountDots(h) - i
  {
    if i == CountDots(h) {
      assert KnownFrom(h, known, i) == None;
    } else if AfterDots(h, i) in known {
      assert FirstKnown(h, known, i);
      assert KnownFrom(h, known, i) == Some(known[AfterDots(h, i)]);
      assert !NoneKnown(h, known);
    } else {
      assert KnownFrom(h, known, i) == KnownFrom(h, known, i + 1);
      KnownFromSpec(h, known, i + 1);
    }
  }

  // ---------------------------------------------------------------------------
  // Regular-expression services

  /** The `ret_regex` list after the given rules, in configuration order: the tag of
      every rule whose expression finds a match, each tag once. */
  function RegexServices<R>(rules: seq<(R, string)>, h: string, search: (R, string) -> bool): (tags: seq<string>)
    ensures forall a, b :: 0 <= a < b < |tags| ==> tags[a] != tags[b]
    ensures forall t :: t in tags <==> exists k :: 0 <= k < |rules| && search(rules[k].0, h) && rules[k].1 == t
  {
    if rules == [] then []
    else
      var init := rules[..|rules| - 1];
      var last := rules[|rules| - 1];
      var pre := RegexServices(init, h, search);
      assert forall k :: 0 <= k < |init| ==> init[k] == rules[k];
      if search(last.0, h) && last.1 !in pre then pre + [last.1] else pre
  }

  /** The tags are ordered by their first matching rule: every matching rule of a
      later tag comes after a matching rule of each earlier tag. */
  lemma {:induction false} RegexServicesOrder<R>(rules: seq<(R, string)>, h: string, search: (R, string) -> bool,
                                                 a: nat, b: nat, k: nat)
    requires var tags := RegexServices(rules, h, search);
      a < b < |tags| && k < |rules| && search(rules[k].0, h) && rules[k].1 == tags[b]
    ensures var tags := RegexServices(rules, h, search);
      exists k' :: 0 <= k' < k && search(rules[k'].0, h) && rules[k'].1 == tags[a]
  {
    var tags := RegexServices(rules, h, search);
    var init := rules[..|rules| - 1];
    var pre := RegexServices(init, h, search);
    assert forall j :: 0 <= j < |init| ==> init[j] == rules[j];
    if k == |rules| - 1 {
      // tags[a] is already in pre, so a rule before the last one matched it
      assert tags[a] == pre[a] && pre[a] in pre;
      var k' :| 0 <= k' < |init| && search(init[k'].0, h) && init[k'].1 == pre[a];
      assert rules[k'] == init[k'];
    } else {
      assert tags[b] in pre by {
        assert init[k] == rules[k];
      }
      assert tags[a] == pre[a] && tags[b] == pre[b];
      assert init[k] == rules[k];
      RegexServicesOrder(init, h, search, a, b, k);
      var k' :| 0 <= k' < k && search(init[k'].0, h) && init[k'].1 == pre[a];
      assert rules[k'] == init[k'];
    }
  }

  // ---------------------------------------------------------------------------
  // The handler

  /** `hostname_classify`: nothing for an entity that is not an IP or a record whose
      hostname is None; otherwise the known-domain service, when a candidate is in
      the table, followed by either the set of the regex services or, when no
      expression matches, their removal. */
  function Classify<R>(etype: string, hostname: Option<string>, known: map<string, string>,
                       rules: seq<(R, string)>, search: (R, string) -> bool): (r: Option<seq<Request>>)
    ensures r.None? <==> etype != "ip" || hostname.None?
    ensures r.Some? ==> 1 <= |r.value| <= 2
  {
    if etype != "ip" || hostname.None? then None
    else
      var h := hostname.value;
      var domain := match KnownService(h, known)
        case Some(s) => [Set(KnownDomainPath, VStr(s))]
        case None => [];
      var tags := RegexServices(rules, h, search);
      var regex := if tags != [] then Set(RegexServicePath, VList(Strings(tags))) else Remove(RegexServicePath);
      Some(domain + [regex])
  }

  function Strings(tags: seq<string>): (vs: seq<Value>)
    ensures |vs| == |tags| && forall i :: 0 <= i < |tags| ==> vs[i] == VStr(tags[i])
  {
    if tags == [] then [] else [VStr(tags[0])] + Strings(tags[1..])
  }

  /** The requests of one classification: exactly one for the regex services,
      the set when some expression matches and the removal otherwise, and one for
      the known domain exactly when a candidate is in the table, carrying that
      candidate's service. */
  lemma ClassifyRequests<R>(h: string, known: map<string, string>, rules: seq<(R, string)>, search: (R, string) -> bool)
    ensures var r := Classify("ip", Some(h), known, rules, search).value;
      var tags := RegexServices(rules, h, search);
      && |set i | 0 <= i < |r| && r[i].path == RegexServicePath| == 1
      && r[|r| - 1] == (if tags != [] then Set(RegexServicePath, VList(Strings(tags))) else Remove(RegexServicePath))
      && (tags == [] <==> forall k :: 0 <= k < |rules| ==> !search(rules[k].0, h))
      && (|r| == 2 <==> !NoneKnown(h, known))
      && (|r| == 2 ==> exists i :: FirstKnown(h, known, i) && r[0] == Set(KnownDomainPath, VStr(known[AfterDots(h, i)])))
  {
    var r := Classify("ip", Some(h), known, rules, search).value;
    var tags := RegexServices(rules, h, search);
    KnownServiceSpec(h, known);
    if tags != [] {
      assert tags[0] in tags;
    } else {
      forall k | 0 <= k < |rules| ensures !search(rules[k].0, h) {
        assert rules[k].1 !in tags;
      }
    }
    assert (set i | 0 <= i < |r| && r[i].path == RegexServicePath) == {|r| - 1};
  }
}
