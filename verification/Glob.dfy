/** Stream patterns: src/glob.rs, and the JavaScript matcher of fossic-node/index.js. */
module Glob {

  // ----- `split('/')` -----

  function Split(s: string): (parts: seq<string>)
    ensures parts != [] && Plain(parts)
  {
    if s == "" then [""]
    else
      var rest := Split(s[1..]);
      if s[0] == '/' then [""] + rest else [[s[0]] + rest[0]] + rest[1..]
  }

  predicate Plain(parts: seq<string>)
  {
    forall k | 0 <= k < |parts| :: '/' !in parts[k]
  }

  function Join(parts: seq<string>): string
    requires parts != []
  {
    if |parts| == 1 then parts[0] else parts[0] + ("/" + Join(parts[1..]))
  }

  lemma {:induction false} JoinOfSplit(s: string)
    ensures Join(Split(s)) == s
  {
    if s != "" {
      JoinOfSplit(s[1..]);
      var rest := Split(s[1..]);
      if s[0] == '/' {
        assert ([""] + rest)[1..] == rest;
      } else {
        assert ([[s[0]] + rest[0]] + rest[1..])[1..] == rest[1..];
        assert Join(Split(s)) == [s[0]] + Join(rest);
      }
    }
  }

  lemma {:induction false} SplitSegment(part: string, rest: string)
    requires '/' !in part
    ensures Split(part) == [part]
    ensures Split(part + ("/" + rest)) == [part] + Split(rest)
  {
    if part == "" {
      assert part + ("/" + rest) == "/" + rest;
      assert ("/" + rest)[1..] == rest;
    } else {
      SplitSegment(part[1..], rest);
      assert [part[0]] + part[1..] == part;
      assert (part + ("/" + rest))[1..] == part[1..] + ("/" + rest);
      assert ([part[1..]] + Split(rest))[1..] == Split(rest);
    }
  }

  lemma {:induction false} SplitOfJoin(parts: seq<string>)
    requires parts != [] && Plain(parts)
    ensures Split(Join(parts)) == parts
  {
    if |parts| == 1 {
      SplitSegment(parts[0], "");
    } else {
      SplitOfJoin(parts[1..]);
      SplitSegment(parts[0], Join(parts[1..]));
    }
  }

  // ----- Matching -----

  predicate MatchParts(p: seq<string>, s: seq<string>)
  {
    if p == [] then s == []
    else if p[0] == "**" then exists i | 0 <= i <= |s| :: MatchParts(p[1..], s[i..])
    else if s == [] then false
    else (p[0] == "*" || p[0] == s[0]) && MatchParts(p[1..], s[1..])
  }

  predicate Matches(pattern: string, stream: string)
  {
    MatchParts(Split(pattern), Split(stream))
  }

  /** What one pattern part may stand for. */
  predicate StandsFor(part: string, block: seq<string>)
  {
    part == "**" || (|block| == 1 && (part == "*" || block[0] == part))
  }

  function Flatten(blocks: seq<seq<string>>): seq<string>
  {
    if blocks == [] then [] else blocks[0] + Flatten(blocks[1..])
  }

  /** `s` is the blocks one after another, one block for each part of `p`. */
  ghost predicate Blocks(p: seq<string>, s: seq<string>, blocks: seq<seq<string>>)
  {
    && |blocks| == |p| && Flatten(blocks) == s
    && forall k | 0 <= k < |p| :: StandsFor(p[k], blocks[k])
  }

  lemma {:induction false} MatchGivesBlocks(p: seq<string>, s: seq<string>) returns (blocks: seq<seq<string>>)
    requires MatchParts(p, s)
    ensures Blocks(p, s, blocks)
  {
    if p == [] {
      blocks := [];
    } else {
      var i: nat := 1;
      if p[0] == "**" {
        i :| i <= |s| && MatchParts(p[1..], s[i..]);
      }
      var rest := MatchGivesBlocks(p[1..], s[i..]);
      blocks := [s[..i]] + rest;
      assert blocks[1..] == rest && s == s[..i] + s[i..];
      forall k | 1 <= k < |p| ensures StandsFor(p[k], blocks[k]) {
        assert p[1..][k - 1] == p[k] && rest[k - 1] == blocks[k];
      }
    }
  }

  lemma {:induction false} BlocksGiveMatch(p: seq<string>, s: seq<string>, blocks: seq<seq<string>>)
    requires Blocks(p, s, blocks)
    ensures MatchParts(p, s)
    decreases |p|
  {
    if p != [] {
      var rest := Flatten(blocks[1..]);
      assert StandsFor(p[0], blocks[0]) && s == blocks[0] + rest;
      forall k | 0 <= k < |p[1..]| ensures StandsFor(p[1..][k], blocks[1..][k]) {
        assert StandsFor(p[k + 1], blocks[k + 1]);
      }
      BlocksGiveMatch(p[1..], rest, blocks[1..]);
      assert s[|blocks[0]|..] == rest;
    }
  }

  /**
   A match is a division of the stream into consecutive blocks: one segment for `*`, an equal one for a literal, any
   number for `**`.
   */
  lemma {:induction false} MatchesExactlyByBlocks(p: seq<string>, s: seq<string>)
    ensures MatchParts(p, s) <==> exists blocks :: Blocks(p, s, blocks)
  {
    if MatchParts(p, s) {
      var blocks := MatchGivesBlocks(p, s);
    }
    if blocks :| Blocks(p, s, blocks) {
      BlocksGiveMatch(p, s, blocks);
    }
  }

  predicate Literal(parts: seq<string>)
  {
    "*" !in parts && "**" !in parts
  }

  lemma {:induction false} LiteralPartsMatchThemselves(p: seq<string>, s: seq<string>)
    requires Literal(p)
    ensures MatchParts(p, s) <==> p == s
  {
    if p != [] && s != [] {
      assert p[0] in p;
      assert p == [p[0]] + p[1..] && s == [s[0]] + s[1..];
      LiteralPartsMatchThemselves(p[1..], s[1..]);
    }
  }

  lemma {:induction false} PartsHaveNoStar(s: string)
    requires '*' !in s
    ensures Literal(Split(s))
  {
    forall k | 0 <= k < |Split(s)| ensures '*' !in Split(s)[k] { CharsSurviveSplit(s, k); }
    assert "*"[0] == '*' && "**"[0] == '*';
  }

  lemma {:induction false} CharsSurviveSplit(s: string, k: nat)
    requires '*' !in s && k < |Split(s)|
    ensures '*' !in Split(s)[k]
  {
    if s != "" {
      assert s == [s[0]] + s[1..];
      var rest := Split(s[1..]);
      if s[0] == '/' {
        if k > 0 { CharsSurviveSplit(s[1..], k - 1); }
      } else {
        CharsSurviveSplit(s[1..], k);
      }
    }
  }

  /** A pattern without a star matches exactly the stream it spells. */
  lemma {:induction false} ExactPatternMatchesOnlyItself(pattern: string, stream: string)
    requires '*' !in pattern
    ensures Matches(pattern, stream) <==> stream == pattern
  {
    PartsHaveNoStar(pattern);
    LiteralPartsMatchThemselves(Split(pattern), Split(stream));
    JoinOfSplit(pattern);
    JoinOfSplit(stream);
  }

  // ----- Specificity -----

  predicate Wildcard(part: string)
  {
    part == "*" || part == "**"
  }

  /** `take_while(not a wildcard).count()`: the parts before the first wildcard. */
  function LeadingLiterals(parts: seq<string>): (n: nat)
    ensures n <= |parts|
    ensures forall k | 0 <= k < n :: parts[k] != "*" && parts[k] != "**"
    ensures n < |parts| ==> parts[n] == "*" || parts[n] == "**"
  {
    if parts == [] || Wildcard(parts[0]) then 0 else 1 + LeadingLiterals(parts[1..])
  }

  function Specificity(pattern: string): nat
  {
    LeadingLiterals(Split(pattern))
  }

  // ----- fossic-node/index.js -----

  predicate JsMatchParts(p: seq<string>, s: seq<string>)
  {
    if |p| == 0 && |s| == 0 then true
    else if |p| == 0 then false
    else if p[0] == "**" then exists n | 0 <= n <= |s| :: JsMatchParts(p[1..], s[n..])
    else if |s| == 0 then false
    else if p[0] == "*" then JsMatchParts(p[1..], s[1..])
    else if p[0] == s[0] then JsMatchParts(p[1..], s[1..])
    else false
  }

  lemma {:induction false} JsMatcherAgrees(p: seq<string>, s: seq<string>)
    ensures JsMatchParts(p, s) == MatchParts(p, s)
    decreases |p|
  {
    if p != [] {
      forall n | 0 <= n <= |s| ensures JsMatchParts(p[1..], s[n..]) == MatchParts(p[1..], s[n..]) {
        JsMatcherAgrees(p[1..], s[n..]);
      }
    }
  }

  /** `_specificity`: the JavaScript count of leading literal parts is the Rust one. */
  method JsSpecificity(pattern: string) returns (count: nat)
    ensures count == Specificity(pattern) && count <= |Split(pattern)|
    ensures forall k | 0 <= k < count :: Split(pattern)[k] != "*" && Split(pattern)[k] != "**"
    ensures count < |Split(pattern)| ==> Split(pattern)[count] == "*" || Split(pattern)[count] == "**"
  {
    var parts := Split(pattern);
    count := 0;
    while count < |parts|
      invariant count <= |parts|
      invariant forall k | 0 <= k < count :: !Wildcard(parts[k])
    {
      if parts[count] == "*" || parts[count] == "**" {
        break;
      }
      count := count + 1;
    }
  }
}
