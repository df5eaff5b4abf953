/** Pattern-based reducer lookup: src/reducers.rs, and `_findReducer` of fossic-node/index.js. */
module Registry {
  import opened Types
  import opened Glob

  // ----- Patterns that share a stream -----

  predicate HasDeep(parts: seq<string>)
  {
    "**" in parts
  }

  predicate PartsAgree(a: string, b: string)
  {
    a == "*" || b == "*" || a == b
  }

  /** `patterns_may_overlap`: exact on patterns without `**`, always true with one. */
  predicate MayOverlap(a: string, b: string)
  {
    var p, q := Split(a), Split(b);
    if HasDeep(p) || HasDeep(q) then true
    else |p| == |q| && forall k | 0 <= k < |p| :: PartsAgree(p[k], q[k])
  }

  ghost predicate ShareAStream(a: string, b: string)
  {
    exists s :: Matches(a, s) && Matches(b, s)
  }

  predicate AllDeep(p: seq<string>)
  {
    forall k | 0 <= k < |p| :: p[k] == "**"
  }

  /** The two part lists match a common list of segments, decided part by part. */
  predicate Meet(p: seq<string>, q: seq<string>)
    decreases |p| + |q|
  {
    if p == [] then AllDeep(q)
    else if q == [] then AllDeep(p)
    else if p[0] == "**" then Meet(p[1..], q) || Meet(p, q[1..])
    else if q[0] == "**" then Meet(p, q[1..]) || Meet(p[1..], q)
    else PartsAgree(p[0], q[0]) && Meet(p[1..], q[1..])
  }

  lemma {:induction false} MeetIsSymmetric(p: seq<string>, q: seq<string>)
    ensures Meet(p, q) == Meet(q, p)
    decreases |p| + |q|
  {
    if p != [] && q != [] {
      MeetIsSymmetric(p[1..], q);
      MeetIsSymmetric(p, q[1..]);
      MeetIsSymmetric(p[1..], q[1..]);
    }
  }

  lemma {:induction false} AllDeepMatches(p: seq<string>, s: seq<string>)
    requires AllDeep(p) && (p == [] ==> s == [])
    ensures MatchParts(p, s)
  {
    if p != [] {
      assert AllDeep(p[1..]) && s[|s|..] == [];
      AllDeepMatches(p[1..], []);
    }
  }

  lemma {:induction false} OnlyAllDeepMatchesNothing(p: seq<string>)
    requires MatchParts(p, [])
    ensures AllDeep(p)
  {
    if p != [] {
      assert p[0] == "**";
      OnlyAllDeepMatchesNothing(p[1..]);
      forall k | 0 <= k < |p| ensures p[k] == "**" { if k > 0 { assert p[1..][k - 1] == p[k]; } }
    }
  }

  /** A deep part in front takes over one more segment. */
  lemma {:induction false} DeepAbsorbs(p: seq<string>, part: string, s: seq<string>)
    requires p != [] && p[0] == "**" && MatchParts(p, s)
    ensures MatchParts(p, [part] + s)
  {
    var i :| 0 <= i <= |s| && MatchParts(p[1..], s[i..]);
    assert ([part] + s)[i + 1..] == s[i..];
  }

  lemma {:induction false} OneSegment(q: seq<string>, part: string, s: seq<string>)
    requires q != [] && q[0] != "**" && (q[0] == "*" || q[0] == part) && MatchParts(q[1..], s)
    ensures MatchParts(q, [part] + s)
  {
    assert ([part] + s)[1..] == s;
  }

  /** A witness segment for a part that is not deep. */
  function SegmentFor(part: string): string
  {
    if part == "*" then "x" else part
  }

  lemma {:induction false} MeetGivesCommon(p: seq<string>, q: seq<string>) returns (s: seq<string>)
    requires Meet(p, q) && Plain(p) && Plain(q)
    ensures Plain(s) && MatchParts(p, s) && MatchParts(q, s)
    decreases |p| + |q|
  {
    if p == [] || q == [] {
      s := [];
      AllDeepMatches(p + q, []);
      assert p + q == p || p + q == q;
    } else if p[0] == "**" {
      s := DeepMeetGivesCommon(p, q);
    } else if q[0] == "**" {
      MeetIsSymmetric(p[1..], q);
      MeetIsSymmetric(p, q[1..]);
      s := DeepMeetGivesCommon(q, p);
    } else {
      var rest := MeetGivesCommon(p[1..], q[1..]);
      var part := if p[0] == "*" then SegmentFor(q[0]) else p[0];
      s := [part] + rest;
      OneSegment(p, part, rest);
      OneSegment(q, part, rest);
    }
  }

  lemma {:induction false} DeepMeetGivesCommon(p: seq<string>, q: seq<string>) returns (s: seq<string>)
    requires p != [] && q != [] && p[0] == "**" && (Meet(p[1..], q) || Meet(p, q[1..])) && Plain(p) && Plain(q)
    ensures Plain(s) && MatchParts(p, s) && MatchParts(q, s)
    decreases |p| + |q|, 0
  {
    if Meet(p[1..], q) {
      s := MeetGivesCommon(p[1..], q);
      assert s[0..] == s;
    } else {
      var rest := MeetGivesCommon(p, q[1..]);
      if q[0] == "**" {
        s := rest;
        assert s[0..] == s;
      } else {
        s := [SegmentFor(q[0])] + rest;
        DeepAbsorbs(p, SegmentFor(q[0]), rest);
        OneSegment(q, SegmentFor(q[0]), rest);
      }
    }
  }

  lemma {:induction false} CommonGivesMeet(p: seq<string>, q: seq<string>, s: seq<string>)
    requires MatchParts(p, s) && MatchParts(q, s)
    ensures Meet(p, q)
    decreases |p| + |q| + |s|, 1
  {
    if p == [] {
      OnlyAllDeepMatchesNothing(q);
    } else if q == [] {
      OnlyAllDeepMatchesNothing(p);
    } else if p[0] == "**" {
      DeepCommonGivesMeet(p, q, s);
    } else if q[0] == "**" {
      DeepCommonGivesMeet(q, p, s);
      MeetIsSymmetric(p[1..], q);
      MeetIsSymmetric(p, q[1..]);
    } else {
      CommonGivesMeet(p[1..], q[1..], s[1..]);
    }
  }

  lemma {:induction false} DeepCommonGivesMeet(p: seq<string>, q: seq<string>, s: seq<string>)
    requires p != [] && q != [] && p[0] == "**" && MatchParts(p, s) && MatchParts(q, s)
    ensures Meet(p[1..], q) || Meet(p, q[1..])
    decreases |p| + |q| + |s|, 0
  {
    var i :| 0 <= i <= |s| && MatchParts(p[1..], s[i..]);
    if i == 0 {
      assert s[0..] == s;
      CommonGivesMeet(p[1..], q, s);
    } else {
      assert s[1..][i - 1..] == s[i..];
      assert MatchParts(p, s[1..]);
      if q[0] == "**" {
        var j :| 0 <= j <= |s| && MatchParts(q[1..], s[j..]);
        if j == 0 {
          assert s[0..] == s;
          CommonGivesMeet(p, q[1..], s);
        } else {
          assert s[1..][j - 1..] == s[j..];
          assert MatchParts(q, s[1..]);
          DeepCommonGivesMeet(p, q, s[1..]);
        }
      } else {
        CommonGivesMeet(p, q[1..], s[1..]);
      }
    }
  }

  /** Two patterns share a stream exactly when their parts meet. */
  lemma {:induction false} ShareExactlyWhenPartsMeet(a: string, b: string)
    ensures ShareAStream(a, b) <==> Meet(Split(a), Split(b))
  {
    var p, q := Split(a), Split(b);
    if Meet(p, q) {
      var s := MeetGivesCommon(p, q);
      if s == [] {
        OnlyAllDeepMatchesNothing(p);
        OnlyAllDeepMatchesNothing(q);
        s := ["x"];
        AllDeepMatches(p, s);
        AllDeepMatches(q, s);
      }
      SplitOfJoin(s);
      assert Matches(a, Join(s)) && Matches(b, Join(s));
    }
    if s :| Matches(a, s) && Matches(b, s) {
      CommonGivesMeet(p, q, Split(s));
    }
  }

  lemma {:induction false} FlatMeet(p: seq<string>, q: seq<string>)
    requires !HasDeep(p) && !HasDeep(q)
    ensures Meet(p, q) <==> |p| == |q| && forall k | 0 <= k < |p| :: PartsAgree(p[k], q[k])
  {
    if p == [] || q == [] {
      if p != [] { assert p[0] in p && p[0] != "**"; }
      if q != [] { assert q[0] in q && q[0] != "**"; }
    } else {
      assert p[0] in p && q[0] in q;
      FlatMeet(p[1..], q[1..]);
      if Meet(p, q) {
        forall k | 0 <= k < |p| ensures PartsAgree(p[k], q[k]) {
          if k > 0 { assert PartsAgree(p[1..][k - 1], q[1..][k - 1]); }
        }
      }
    }
  }

  /**
   `patterns_may_overlap` never misses a common stream.  It answers exactly whether there is one just when
   neither pattern contains `**` or their parts do meet; on the others it over-approximates.
   */
  lemma {:induction false} MayOverlapExactly(a: string, b: string)
    ensures ShareAStream(a, b) ==> MayOverlap(a, b)
    ensures (MayOverlap(a, b) <==> ShareAStream(a, b))
            <==> ("**" !in Split(a) && "**" !in Split(b)) || Meet(Split(a), Split(b))
  {
    ShareExactlyWhenPartsMeet(a, b);
    if !HasDeep(Split(a)) && !HasDeep(Split(b)) {
      FlatMeet(Split(a), Split(b));
    }
  }

  // Below different literals, two `**` share no stream, yet "may overlap": registering both is refused.
  lemma {:induction false} DeepPatternsOverApproximate()
    ensures MayOverlap("a/**", "b/**") && !ShareAStream("a/**", "b/**")
  {
    SplitOfJoin(["a", "**"]);
    SplitOfJoin(["b", "**"]);
    assert Join(["a", "**"]) == "a/**" && Join(["b", "**"]) == "b/**";
    assert ["a", "**"][1] == "**" && "a" == "a" && "a"[0] != "b"[0];
    ShareExactlyWhenPartsMeet("a/**", "b/**");
    assert "**"[0] == '*' && !PartsAgree("a", "b");
  }

  lemma {:induction false} MayOverlapIsSymmetric(a: string, b: string)
    ensures MayOverlap(a, b) == MayOverlap(b, a)
  {
  }

  // ----- The registry -----

  datatype Policy = Manual | EveryNEvents(n: nat) | EveryNSeconds(n: nat) | StateAdaptive

  /** A registered reducer, known by its name and state-schema version. */
  datatype Entry = Entry(pattern: string, specificity: nat, name: string, schema: u32, policy: Policy)

  datatype RegisterError = InvalidPolicy | Ambiguous(a: string, b: string)

  predicate ValidPolicy(policy: Policy)
  {
    match policy
    case EveryNEvents(n) => n != 0
    case EveryNSeconds(n) => n != 0
    case _ => true
  }

  predicate Clash(a: Entry, b: Entry)
  {
    a.specificity == b.specificity && MayOverlap(a.pattern, b.pattern)
  }

  ghost predicate Separated(entries: seq<Entry>)
  {
    && (forall i | 0 <= i < |entries| :: entries[i].specificity == Specificity(entries[i].pattern))
    && (forall i, j | 0 <= i < j < |entries| :: !Clash(entries[i], entries[j]))
  }

  predicate Accepts(entries: seq<Entry>, e: Entry)
  {
    forall k | 0 <= k < |entries| :: !Clash(entries[k], e)
  }

  lemma {:induction false} SeparatedOneMore(entries: seq<Entry>, e: Entry)
    requires Separated(entries) && e.specificity == Specificity(e.pattern)
    ensures Separated(entries + [e]) <==> Accepts(entries, e)
  {
    hide Clash, Specificity;
    var more := entries + [e];
    if Separated(more) {
      forall k | 0 <= k < |entries| ensures !Clash(entries[k], e) { assert !Clash(more[k], more[|entries|]); }
    }
  }

  /** No stream is matched by two entries of equal specificity. */
  lemma {:induction false} NoStreamIsAmbiguous(entries: seq<Entry>, i: nat, j: nat, stream: string)
    requires Separated(entries) && i < |entries| && j < |entries|
    requires Matches(entries[i].pattern, stream) && Matches(entries[j].pattern, stream)
    requires Specificity(entries[i].pattern) == Specificity(entries[j].pattern)
    ensures i == j
  {
    hide MayOverlap, Matches;
    MatchedTogetherClash(entries[i], entries[j], stream);
    MatchedTogetherClash(entries[j], entries[i], stream);
    assert i < j || j < i || i == j;
  }

  lemma {:induction false} MatchedTogetherClash(a: Entry, b: Entry, stream: string)
    requires Matches(a.pattern, stream) && Matches(b.pattern, stream) && a.specificity == b.specificity
    ensures Clash(a, b)
  {
    hide MayOverlap, Matches;
    MayOverlapExactly(a.pattern, b.pattern);
  }

  /** The most specific entry that matches. */
  ghost predicate IsBest(entries: seq<Entry>, stream: string, best: Option<Entry>)
  {
    match best
    case None => forall i | 0 <= i < |entries| :: !Matches(entries[i].pattern, stream)
    case Some(b) =>
      && b in entries && Matches(b.pattern, stream)
      && forall i | 0 <= i < |entries| && Matches(entries[i].pattern, stream) && entries[i] != b ::
           entries[i].specificity < b.specificity
  }

  /** Registries with the same entries, in whatever order they were registered, look every stream up alike. */
  lemma {:induction false} LookupIgnoresOrder(xs: seq<Entry>, ys: seq<Entry>, stream: string, a: Option<Entry>,
                                              b: Option<Entry>)
    requires multiset(xs) == multiset(ys) && IsBest(xs, stream, a) && IsBest(ys, stream, b)
    ensures a == b
  {
    hide Matches;
    assert forall e :: e in xs <==> e in multiset(xs);
    assert forall e :: e in ys <==> e in multiset(ys);
  }

  class ReducerRegistry {
    var entries: seq<Entry>

    ghost predicate Valid()
      reads this
    {
      Separated(entries)
    }

    constructor ()
      ensures Valid() && entries == []
    {
      entries := [];
    }

    /** Refused exactly for a zero period, or when some registered pattern of equal specificity may overlap. */
    method RegisterWithPolicy(pattern: string, name: string, schema: u32, policy: Policy)
      returns (r: Result<Unit, RegisterError>)
      requires Valid()
      modifies this
      ensures Valid()
      ensures var e := Entry(pattern, Specificity(pattern), name, schema, policy);
        && (r.Ok? <==> ValidPolicy(policy) && Separated(old(entries) + [e]))
        && (r.Ok? <==>
              && policy != EveryNEvents(0) && policy != EveryNSeconds(0)
              && forall i | 0 <= i < |old(entries)| ::
                   !(old(entries)[i].specificity == e.specificity && MayOverlap(old(entries)[i].pattern, pattern)))
        && (r.Err? && r.error.InvalidPolicy? <==> policy == EveryNEvents(0) || policy == EveryNSeconds(0))
        && (r.Ok? ==> entries == old(entries) + [e])
        && (r.Err? ==> entries == old(entries))
        && (r.Err? && r.error.Ambiguous? ==>
              r.error.b == pattern && exists i | 0 <= i < |entries| ::
                r.error.a == entries[i].pattern && Clash(entries[i], e))
    {
      hide MayOverlap, Separated, Specificity;
      if !ValidPolicy(policy) {
        return Err(InvalidPolicy);
      }
      var e := Entry(pattern, Specificity(pattern), name, schema, policy);
      SeparatedOneMore(entries, e);
      var i := 0;
      while i < |entries|
        invariant entries == old(entries)
        invariant i <= |entries| && forall k | 0 <= k < i :: !Clash(entries[k], e)
      {
        var existing := entries[i];
        MayOverlapIsSymmetric(pattern, existing.pattern);
        if MayOverlap(pattern, existing.pattern) && e.specificity == existing.specificity {
          assert Clash(entries[i], e);
          return Err(Ambiguous(existing.pattern, pattern));
        }
        i := i + 1;
      }
      entries := entries + [e];
      r := Ok(Unit.Unit);
    }

    method FindWithPolicy(stream: string) returns (best: Option<Entry>)
      requires Valid()
      ensures IsBest(entries, stream, best)
    {
      hide Matches, MayOverlap, Specificity, Clash;
      best := None;
      var i := 0;
      ghost var at := 0;
      while i < |entries|
        invariant i <= |entries|
        invariant best.None? ==> forall k | 0 <= k < i :: !Matches(entries[k].pattern, stream)
        invariant best.Some? ==> at < i && entries[at] == best.value && Matches(best.value.pattern, stream)
        invariant best.Some? ==>
          forall k | 0 <= k < i && Matches(entries[k].pattern, stream) ::
            k == at || entries[k].specificity < best.value.specificity
      {
        var entry := entries[i];
        if Matches(entry.pattern, stream) {
          if best.Some? && entry.specificity == best.value.specificity {
            assert entries[at].specificity == Specificity(entries[at].pattern);
            NoStreamIsAmbiguous(entries, at, i, stream);
          }
          if best.None? || entry.specificity > best.value.specificity {
            best := Some(entry);
            at := i;
          }
        }
        i := i + 1;
      }
    }
  }

  // ----- fossic-node/index.js -----

  datatype JsEntry = JsEntry(pattern: string, name: string)

  /** `_findReducer`, on a list that nothing checks for ambiguity: the first of the most specific matches. */
  method JsFindReducer(registry: seq<JsEntry>, stream: string) returns (best: Option<string>)
    ensures best.None? ==> forall k | 0 <= k < |registry| :: !Matches(registry[k].pattern, stream)
    ensures best.Some? ==> exists at | 0 <= at < |registry| ::
            JsBest(registry, stream, at) && registry[at].name == best.value
  {
    hide Matches, Specificity;
    best := None;
    var bestSpec: int := -1;
    var i := 0;
    ghost var at := 0;
    while i < |registry|
      invariant i <= |registry|
      invariant bestSpec == -1 ==> best.None? && forall k | 0 <= k < i :: !Matches(registry[k].pattern, stream)
      invariant bestSpec >= 0 ==> best.Some? && at < i && registry[at].name == best.value
      invariant bestSpec >= 0 ==> JsBestUpTo(registry, i, stream, at) && bestSpec == Specificity(registry[at].pattern)
      invariant bestSpec >= -1
    {
      var e := registry[i];
      if Matches(e.pattern, stream) {
        var spec := JsSpecificity(e.pattern);
        if spec > bestSpec {
          best := Some(e.name);
          bestSpec := spec;
          at := i;
        }
      }
      i := i + 1;
    }
  }

  /** Among the first `n` entries, `at` is the first of the most specific matches. */
  predicate JsBestUpTo(registry: seq<JsEntry>, n: nat, stream: string, at: nat)
    requires n <= |registry|
  {
    && at < n && Matches(registry[at].pattern, stream)
    && (forall k | 0 <= k < n && Matches(registry[k].pattern, stream) ::
          Specificity(registry[k].pattern) <= Specificity(registry[at].pattern))
    && (forall k | 0 <= k < at && Matches(registry[k].pattern, stream) ::
          Specificity(registry[k].pattern) < Specificity(registry[at].pattern))
  }

  predicate JsBest(registry: seq<JsEntry>, stream: string, at: nat)
  {
    JsBestUpTo(registry, |registry|, stream, at)
  }

  predicate SameRegistrations(registry: seq<JsEntry>, entries: seq<Entry>)
  {
    |registry| == |entries| && forall i | 0 <= i < |registry| ::
      registry[i] == JsEntry(entries[i].pattern, entries[i].name)
  }

  /** On the registrations the Rust registry accepted, both lookups pick the same reducer. */
  lemma {:induction false} JsLookupAgrees(registry: seq<JsEntry>, entries: seq<Entry>, stream: string, at: nat,
                                          best: Option<Entry>)
    requires SameRegistrations(registry, entries) && Separated(entries)
    requires JsBest(registry, stream, at) && IsBest(entries, stream, best)
    ensures best == Some(entries[at])
  {
    hide Matches, MayOverlap, Specificity;
    assert Matches(entries[at].pattern, stream);
    assert registry[at] == JsEntry(entries[at].pattern, entries[at].name);
    var i :| 0 <= i < |entries| && entries[i] == best.value;
    assert registry[i] == JsEntry(entries[i].pattern, entries[i].name);
  }
}
