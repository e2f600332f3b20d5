/** Stripping tagged regions out of a text, as the release script does. */
module StripTags {

  type Text = seq<char>

  // ----- the string operations of Python that the loop uses -----

  predicate Occurs(s: Text, t: Text, i: int) {
    0 <= i && i + |t| <= |s| && s[i..i + |t|] == t
  }

  /** `s.find(t, start)`: the first place of `t` at or after `start`, or -1. */
  function Find(s: Text, t: Text, start: nat): (r: int)
    ensures r == -1 || (start <= r && Occurs(s, t, r))
    ensures forall i :: start <= i && (r == -1 || i < r) ==> !Occurs(s, t, i)
    decreases |s| - start
  {
    if start + |t| > |s| then -1
    else if s[start..start + |t|] == t then start
    else Find(s, t, start + 1)
  }

  /** `s.replace(t, '')`: drops the copies of `t` that a scan from the left meets. */
  function RemoveAll(s: Text, t: Text): Text {
    if t == [] || |s| < |t| then s
    else if s[..|t|] == t then RemoveAll(s[|t|..], t)
    else [s[0]] + RemoveAll(s[1..], t)
  }

  // ----- deleting only -----

  /** `f` says where in `b` each character of `a` comes from. */
  ghost predicate Embeds(f: seq<nat>, a: Text, b: Text) {
    && |f| == |a|
    && (forall i :: 0 <= i < |f| ==> f[i] < |b| && a[i] == b[f[i]])
    && (forall i, j :: 0 <= i < j < |f| ==> f[i] < f[j])
  }

  /** `a` is what is left of `b` after deleting characters. */
  ghost predicate LeftOf(a: Text, b: Text) {
    exists f :: Embeds(f, a, b)
  }

  lemma LeftOfItself(s: Text)
    ensures LeftOf(s, s)
  {
    assert Embeds(seq(|s|, i => i), s, s);
  }

  lemma LeftOfTransitive(a: Text, b: Text, c: Text)
    requires LeftOf(a, b) && LeftOf(b, c)
    ensures LeftOf(a, c)
  {
    var f :| Embeds(f, a, b);
    var g :| Embeds(g, b, c);
    var h := seq(|f|, i requires 0 <= i < |f| => g[f[i]]);
    assert Embeds(h, a, c);
  }

  lemma LeftOfPrefixed(p: Text, a: Text, b: Text)
    requires LeftOf(a, b)
    ensures LeftOf(p + a, p + b) && LeftOf(a, p + b)
  {
    var f :| Embeds(f, a, b);
    var g := seq(|p| + |f|, i requires 0 <= i < |p| + |f| => if i < |p| then i else |p| + f[i - |p|]);
    assert Embeds(g, p + a, p + b);
    var h := seq(|f|, i requires 0 <= i < |f| => |p| + f[i]);
    assert Embeds(h, a, p + b);
  }

  lemma {:induction false} RemoveAllDeletes(s: Text, t: Text)
    ensures LeftOf(RemoveAll(s, t), s) && |RemoveAll(s, t)| <= |s|
  {
    if t == [] || |s| < |t| {
      LeftOfItself(s);
    } else if s[..|t|] == t {
      RemoveAllDeletes(s[|t|..], t);
      LeftOfPrefixed(t, RemoveAll(s[|t|..], t), s[|t|..]);
      assert s == t + s[|t|..];
    } else {
      RemoveAllDeletes(s[1..], t);
      LeftOfPrefixed([s[0]], RemoveAll(s[1..], t), s[1..]);
      assert s == [s[0]] + s[1..];
    }
  }

  /** Removing a text that occurs makes room for at least one copy of it. */
  lemma {:induction false} RemoveAllShrinks(s: Text, t: Text, i: nat)
    requires Occurs(s, t, i)
    ensures |RemoveAll(s, t)| <= |s| - |t|
    decreases |s|
  {
    if t != [] {
      if s[..|t|] == t {
        RemoveAllDeletes(s[|t|..], t);
      } else {
        assert s[1..][i - 1..i - 1 + |t|] == s[i..i + |t|];
        RemoveAllShrinks(s[1..], t, i - 1);
      }
    }
  }

  // ----- one round of the loop -----

  datatype Round = Finished | Broken | Cut(begin: nat, end: nat)

  /** What the loop finds in `s`: no begin tag; a begin tag without an end tag; or a region. */
  function Look(s: Text, open: Text, close: Text): (r: Round)
    ensures r.Finished? <==> forall i :: !Occurs(s, open, i)
    ensures r.Cut? ==> r.begin + |open| + |close| <= r.end <= |s|
    ensures r.Cut? ==> Occurs(s, open, r.begin) && Occurs(s, close, r.end - |close|)
    ensures r.Cut? ==> forall i :: 0 <= i < r.begin ==> !Occurs(s, open, i)
    ensures r.Cut? ==> forall i :: r.begin + |open| <= i < r.end - |close| ==> !Occurs(s, close, i)
    ensures r.Broken? ==> exists b: nat :: Occurs(s, open, b) && forall i :: b + |open| <= i ==> !Occurs(s, close, i)
  {
    var begin := Find(s, open, 0);
    if begin == -1 then Finished
    else
      var end := Find(s, close, begin + |open|);
      if end == -1 then Broken else Cut(begin, end + |close|)
  }

  /** With two empty tags a round changes nothing, so the loop never ends. */
  lemma EmptyTagsLoop(s: Text)
    ensures Look(s, [], []) == Cut(0, 0) && RemoveAll(s, s[0..0]) == s
  {
  }

  /** With any other tags a round that finds a region shortens the text by both tags at least. */
  lemma RoundShrinks(s: Text, open: Text, close: Text)
    requires Look(s, open, close).Cut?
    ensures var c := Look(s, open, close);
      |RemoveAll(s, s[c.begin..c.end])| <= |s| - |open| - |close|
  {
    var c := Look(s, open, close);
    RemoveAllShrinks(s, s[c.begin..c.end], c.begin);
  }

  // ----- the loop -----

  /** The loop ends with the stripped text, or raises an exception. */
  datatype Outcome = Stripped(text: Text) | Imbalanced

  /** The loop with all copies of the region deleted at once. */
  function AllAtOnce(s: Text, open: Text, close: Text): Outcome
    requires open != [] || close != []
    decreases |s|
  {
    match Look(s, open, close)
    case Finished => Stripped(s)
    case Broken => Imbalanced
    case Cut(begin, end) =>
      RoundShrinks(s, open, close);
      AllAtOnce(RemoveAll(s, s[begin..end]), open, close)
  }

  /** The plain way: only the region that was found is deleted. */
  function OneAtATime(s: Text, open: Text, close: Text): Outcome
    requires open != [] || close != []
    decreases |s|
  {
    match Look(s, open, close)
    case Finished => Stripped(s)
    case Broken => Imbalanced
    case Cut(begin, end) => OneAtATime(s[..begin] + s[end..], open, close)
  }

  /** Where the loop stands: characters have been deleted, and the outcome is still the same. */
  ghost predicate Underway(content: Text, text: Text, open: Text, close: Text) {
    && (open != [] || close != []) && LeftOf(content, text)
    && AllAtOnce(content, open, close) == AllAtOnce(text, open, close)
  }

  lemma RoundDeletes(s: Text, open: Text, close: Text, text: Text, begin: nat, end: nat, next: Text)
    requires Underway(s, text, open, close) && Look(s, open, close) == Cut(begin, end)
    requires next == RemoveAll(s, s[begin..end])
    ensures |next| < |s| && Underway(next, text, open, close)
  {
    RoundShrinks(s, open, close);
    RemoveAllDeletes(s, s[begin..end]);
    LeftOfTransitive(next, s, text);
  }

  /** One round of the loop. */
  method Turn(content: Text, open: Text, close: Text, ghost text: Text) returns (r: Round, next: Text)
    requires Underway(content, text, open, close)
    ensures r == Look(content, open, close)
    ensures if r.Cut? then |next| < |content| && Underway(next, text, open, close) else next == content
  {
    var begin := Find(content, open, 0);
    if begin == -1 {
      return Finished, content;
    }
    var end := Find(content, close, begin + |open|);
    if end == -1 {
      return Broken, content;
    }
    r := Cut(begin, end + |close|);
    next := RemoveAll(content, content[begin..end + |close|]);
    RoundDeletes(content, open, close, text, begin, end + |close|, next);
  }

  // ----- what the outcome means -----

  ghost predicate Absent(s: Text, t: Text) {
    forall i :: !Occurs(s, t, i)
  }

  ghost predicate FirstAt(s: Text, t: Text, start: nat, i: int) {
    start <= i && Occurs(s, t, i) && forall j :: start <= j < i ==> !Occurs(s, t, j)
  }

  /** There is a begin tag, and no end tag behind the first one. */
  ghost predicate Unclosed(s: Text, open: Text, close: Text) {
    exists b: nat :: FirstAt(s, open, 0, b) && forall i :: b + |open| <= i ==> !Occurs(s, close, i)
  }

  /** The first begin tag is at `b`, and the first end tag behind it ends at `e`. */
  ghost predicate Encloses(s: Text, open: Text, close: Text, b: nat, e: nat) {
    b <= e <= |s| && FirstAt(s, open, 0, b) && FirstAt(s, close, b + |open|, e - |close|)
  }

  /** One round: every copy of the first region goes. */
  ghost predicate RoundTo(s: Text, next: Text, open: Text, close: Text) {
    exists b: nat, e: nat :: Encloses(s, open, close, b, e) && next == RemoveAll(s, s[b..e])
  }

  /** The texts that rounds lead to, one after the other, from `s` on. */
  ghost predicate Leads(s: Text, texts: seq<Text>, open: Text, close: Text) {
    && texts != [] && texts[0] == s
    && forall i :: 0 < i < |texts| ==> RoundTo(texts[i - 1], texts[i], open, close)
  }

  ghost function Last(texts: seq<Text>): Text
    requires texts != []
  {
    texts[|texts| - 1]
  }

  lemma BrokenMeans(s: Text, open: Text, close: Text)
    ensures Look(s, open, close).Broken? <==> Unclosed(s, open, close)
  {
    if Look(s, open, close).Broken? {
      assert FirstAt(s, open, 0, Find(s, open, 0));
    }
    if Unclosed(s, open, close) {
      var b: nat :| FirstAt(s, open, 0, b) && forall i :: b + |open| <= i ==> !Occurs(s, close, i);
      FindIs(s, open, 0, b);
    }
  }

  lemma CutMeans(s: Text, open: Text, close: Text, b: nat, e: nat)
    ensures Encloses(s, open, close, b, e) <==> Look(s, open, close) == Cut(b, e)
  {
    if Encloses(s, open, close, b, e) {
      FindIs(s, open, 0, b);
      FindIs(s, close, b + |open|, e - |close|);
    }
  }

  /** A round leads on exactly if it finds a region, and then to one text only. */
  lemma RoundMeans(s: Text, next: Text, open: Text, close: Text)
    ensures var c := Look(s, open, close);
      RoundTo(s, next, open, close) <==> c.Cut? && next == RemoveAll(s, s[c.begin..c.end])
  {
    var c := Look(s, open, close);
    if c.Cut? {
      CutMeans(s, open, close, c.begin, c.end);
    }
    if RoundTo(s, next, open, close) {
      var b: nat, e: nat :| Encloses(s, open, close, b, e) && next == RemoveAll(s, s[b..e]);
      CutMeans(s, open, close, b, e);
    }
  }

  /** What is decided at `s`: no begin tag is left, or one that is not closed. */
  ghost predicate Decided(r: Outcome, s: Text, open: Text, close: Text) {
    match r
    case Stripped(t) => t == s && Absent(s, open)
    case Imbalanced => Unclosed(s, open, close)
  }

  /** Rounds lead to a text at which the outcome is decided. */
  lemma {:induction false} OutcomeIsReached(s: Text, open: Text, close: Text) returns (texts: seq<Text>)
    requires open != [] || close != []
    ensures Leads(s, texts, open, close) && Decided(AllAtOnce(s, open, close), Last(texts), open, close)
    decreases |s|
  {
    var c := Look(s, open, close);
    if c.Cut? {
      var next := RemoveAll(s, s[c.begin..c.end]);
      RoundShrinks(s, open, close);
      RoundMeans(s, next, open, close);
      var rest := OutcomeIsReached(next, open, close);
      texts := LeadsFirst(s, next, rest, open, close);
    } else {
      texts := [s];
      BrokenMeans(s, open, close);
    }
  }

  lemma LeadsFirst(s: Text, next: Text, rest: seq<Text>, open: Text, close: Text) returns (texts: seq<Text>)
    requires RoundTo(s, next, open, close) && Leads(next, rest, open, close)
    ensures Leads(s, texts, open, close) && Last(texts) == Last(rest)
  {
    texts := [s] + rest;
    forall i | 0 < i < |texts|
      ensures RoundTo(texts[i - 1], texts[i], open, close)
    {
      assert i > 1 ==> RoundTo(rest[i - 2], rest[i - 1], open, close);
    }
  }

  /** What is decided at any text that rounds lead to is the outcome. */
  lemma {:induction false} ReachedIsOutcome(s: Text, texts: seq<Text>, r: Outcome, open: Text, close: Text)
    requires (open != [] || close != []) && Leads(s, texts, open, close) && Decided(r, Last(texts), open, close)
    ensures AllAtOnce(s, open, close) == r
    decreases |texts|
  {
    if |texts| == 1 {
      BrokenMeans(s, open, close);
    } else {
      var rest := texts[1..];
      assert RoundTo(texts[0], texts[1], open, close);
      RoundMeans(s, texts[1], open, close);
      RoundShrinks(s, open, close);
      forall i | 0 < i < |rest|
        ensures RoundTo(rest[i - 1], rest[i], open, close)
      {
        assert RoundTo(texts[i], texts[i + 1], open, close);
      }
      ReachedIsOutcome(texts[1], rest, r, open, close);
    }
  }

  /** The outcome is what is decided where rounds lead to, and nothing else is. */
  lemma OutcomeMeans(s: Text, open: Text, close: Text, r: Outcome)
    requires open != [] || close != []
    ensures AllAtOnce(s, open, close) == r <==>
      exists texts :: Leads(s, texts, open, close) && Decided(r, Last(texts), open, close)
  {
    if AllAtOnce(s, open, close) == r {
      var texts := OutcomeIsReached(s, open, close);
    }
    if texts :| Leads(s, texts, open, close) && Decided(r, Last(texts), open, close) {
      ReachedIsOutcome(s, texts, r, open, close);
    }
  }

  /** The exception is raised exactly if rounds lead to a text with a begin tag that is not closed. */
  lemma ImbalancedMeans(s: Text, open: Text, close: Text)
    requires open != [] || close != []
    ensures AllAtOnce(s, open, close) == Imbalanced <==>
      exists texts :: Leads(s, texts, open, close) && Unclosed(Last(texts), open, close)
  {
    OutcomeMeans(s, open, close, Imbalanced);
    if texts :| Leads(s, texts, open, close) && Unclosed(Last(texts), open, close) {
      assert Decided(Imbalanced, Last(texts), open, close);
    }
  }

  /** A text is the result exactly if rounds lead to it and it has no begin tag. */
  lemma StrippedMeans(s: Text, open: Text, close: Text)
    requires open != [] || close != []
    ensures forall t :: AllAtOnce(s, open, close) == Stripped(t) <==>
      exists texts :: Leads(s, texts, open, close) && Last(texts) == t && Absent(t, open)
  {
    forall t
      ensures AllAtOnce(s, open, close) == Stripped(t) <==>
        exists texts :: Leads(s, texts, open, close) && Last(texts) == t && Absent(t, open)
    {
      OutcomeMeans(s, open, close, Stripped(t));
      if texts :| Leads(s, texts, open, close) && Last(texts) == t && Absent(t, open) {
        assert Decided(Stripped(t), Last(texts), open, close);
      }
    }
  }

  /** Replacing by nothing deletes the first copy, then the first copy behind it, and so on. */
  lemma RemoveAllIs(s: Text, t: Text, i: nat)
    requires t != [] && FirstAt(s, t, 0, i)
    ensures RemoveAll(s, t) == s[..i] + RemoveAll(s[i + |t|..], t)
  {
    assert s[..i] + s[i..] == s;
    RemoveAllSkips(s[..i], s[i..], t);
    assert s[i..][..|t|] == s[i..i + |t|] && s[i..][|t|..] == s[i + |t|..];
  }

  /** And where there is no copy, nothing. */
  lemma NothingToRemove(s: Text, t: Text)
    requires t == [] || Absent(s, t)
    ensures RemoveAll(s, t) == s
  {
    assert s + [] == s;
    if t != [] {
      RemoveAllSkips(s, [], t);
    }
  }

  /** The loop of the script, on the text of the file. */
  method StripContentBetweenTags(text: Text, open: Text, close: Text) returns (r: Outcome)
    requires open != [] || close != []
    ensures r == AllAtOnce(text, open, close)
    ensures r.Stripped? ==> LeftOf(r.text, text) && forall i :: !Occurs(r.text, open, i)
    ensures r.Imbalanced? ==> exists left :: LeftOf(left, text) && Look(left, open, close) == Broken
    ensures r == Imbalanced <==> exists texts :: Leads(text, texts, open, close) && Unclosed(Last(texts), open, close)
    ensures forall t :: r == Stripped(t) <==> exists texts :: Leads(text, texts, open, close) && Last(texts) == t && Absent(t, open)
    ensures Unclosed(text, open, close) ==> r == Imbalanced
    ensures open == [] ==> r == Imbalanced
  {
    BrokenMeans(text, open, close);
    ImbalancedMeans(text, open, close);
    StrippedMeans(text, open, close);
    var content := text;
    LeftOfItself(text);
    while true
      invariant Underway(content, text, open, close) == true
      decreases |content|
    {
      var round, next := Turn(content, open, close, text);
      match round {
        case Finished =>
          assert open == [] ==> Occurs(content, open, 0);
          return Stripped(content);
        case Broken =>
          return Imbalanced;
        case Cut(_, _) =>
          content := next;
      }
    }
  }

  /** What is stripped stays as it is when stripped again. */
  lemma {:induction false} StrippedTwice(s: Text, open: Text, close: Text)
    requires (open != [] || close != []) && AllAtOnce(s, open, close).Stripped?
    ensures AllAtOnce(AllAtOnce(s, open, close).text, open, close) == AllAtOnce(s, open, close)
    decreases |s|
  {
    var c := Look(s, open, close);
    if c.Cut? {
      RoundShrinks(s, open, close);
      StrippedTwice(RemoveAll(s, s[c.begin..c.end]), open, close);
    }
  }

  // ----- texts made of gaps and regions -----

  datatype Doc = End(gap: Text) | Region(gap: Text, region: Text, rest: Doc)

  function Render(d: Doc): Text {
    if d.End? then d.gap else d.gap + (d.region + Render(d.rest))
  }

  /** What is left without the regions. */
  function Gaps(d: Doc): Text {
    if d.End? then d.gap else d.gap + Gaps(d.rest)
  }

  function Count(d: Doc): nat {
    if d.End? then 0 else 1 + Count(d.rest)
  }

  /** Cuts a text into gaps and regions in one pass from the left. */
  function Parse(s: Text, open: Text, close: Text): Doc
    requires open != [] || close != []
    decreases |s|
  {
    match Look(s, open, close)
    case Cut(begin, end) => Region(s[..begin], s[begin..end], Parse(s[end..], open, close))
    case _ => End(s)
  }

  function Prefixed(g: Text, d: Doc): Doc {
    if d.End? then End(g + d.gap) else d.(gap := g + d.gap)
  }

  /** The document without its `i`-th region. */
  function Drop(d: Doc, i: nat): (r: Doc)
    requires i < Count(d)
    ensures Count(r) == Count(d) - 1
  {
    if i == 0 then Prefixed(d.gap, d.rest) else d.(rest := Drop(d.rest, i - 1))
  }

  /** The document without the regions that are copies of `r`. */
  function Delete(d: Doc, r: Text): Doc {
    if d.End? then d
    else if d.region == r then Prefixed(d.gap, Delete(d.rest, r))
    else d.(rest := Delete(d.rest, r))
  }

  /** A region runs from a begin tag to the first end tag after it. */
  predicate IsRegion(r: Text, open: Text, close: Text) {
    && |r| >= |open| + |close| && Occurs(r, open, 0) && Occurs(r, close, |r| - |close|)
    && forall i :: |open| <= i < |r| - |close| ==> !Occurs(r, close, i)
  }

  predicate AllRegions(d: Doc, open: Text, close: Text) {
    d.Region? ==> IsRegion(d.region, open, close) && AllRegions(d.rest, open, close)
  }

  /** The texts of the regions. */
  ghost function Regions(d: Doc): set<Text> {
    if d.End? then {} else {d.region} + Regions(d.rest)
  }

  /** No begin tag starts outside the regions, and none of the texts in `rs` starts inside one. */
  ghost predicate OpensAtRegions(d: Doc, open: Text, rs: set<Text>) {
    if d.End? then forall i :: !Occurs(d.gap, open, i)
    else
      && (forall i :: 0 <= i < |d.gap| ==> !Occurs(Render(d), open, i))
      && (forall i, r :: |d.gap| < i < |d.gap| + |d.region| && r in rs ==> !Occurs(Render(d), r, i))
      && OpensAtRegions(d.rest, open, rs)
  }

  /** No deletion of regions, in any order, joins text into a new begin tag or a new copy of a region. */
  ghost predicate JoinsNothing(d: Doc, open: Text, rs: set<Text>)
    decreases Count(d)
  {
    && OpensAtRegions(d, open, rs)
    && forall i :: 0 <= i < Count(d) ==> JoinsNothing(Drop(d, i), open, rs)
  }

  lemma OccursInSlice(s: Text, t: Text, a: nat, b: nat, i: nat)
    requires a <= b <= |s| && i + |t| <= b - a
    ensures Occurs(s[a..b], t, i) <==> Occurs(s, t, a + i)
  {
    var x, y := s[a..b][i..i + |t|], s[a + i..a + i + |t|];
    assert |x| == |y| && forall j :: 0 <= j < |t| ==> x[j] == y[j];
    assert x == y;
  }

  lemma CutIsRegion(s: Text, open: Text, close: Text)
    requires Look(s, open, close).Cut?
    ensures var c := Look(s, open, close); IsRegion(s[c.begin..c.end], open, close)
  {
    var c := Look(s, open, close);
    var r := s[c.begin..c.end];
    OccursInSlice(s, open, c.begin, c.end, 0);
    OccursInSlice(s, close, c.begin, c.end, |r| - |close|);
    forall i | |open| <= i < |r| - |close|
      ensures !Occurs(r, close, i)
    {
      OccursInSlice(s, close, c.begin, c.end, i);
    }
  }

  lemma {:induction false} ParseRenders(s: Text, open: Text, close: Text)
    requires open != [] || close != []
    ensures Render(Parse(s, open, close)) == s && AllRegions(Parse(s, open, close), open, close)
    decreases |s|
  {
    var c := Look(s, open, close);
    if c.Cut? {
      ParseRenders(s[c.end..], open, close);
      CutIsRegion(s, open, close);
      ThreeParts(s, c.begin, c.end);
    }
  }

  lemma ThreeParts(s: Text, b: nat, e: nat)
    requires b <= e <= |s|
    ensures s == s[..b] + (s[b..e] + s[e..])
  {
  }

  // ----- deleting all copies at once, and one at a time -----

  /** What a text holds between `b` and `e` occurs in the text as in itself. */
  lemma OccursIn(s: Text, r: Text, b: nat, t: Text, i: nat)
    requires b + |r| <= |s| && s[b..b + |r|] == r && i + |t| <= |r|
    ensures Occurs(s, t, b + i) <==> Occurs(r, t, i)
  {
    OccursInSlice(s, t, b, b + |r|, i);
  }

  lemma FindIs(s: Text, t: Text, start: nat, r: nat)
    requires start <= r && Occurs(s, t, r) && forall i :: start <= i < r ==> !Occurs(s, t, i)
    ensures Find(s, t, start) == r
  {
  }

  /** From behind its begin tag, the first end tag is the one that a region ends with. */
  lemma RegionEnds(s: Text, r: Text, b: nat, open: Text, close: Text)
    requires b + |r| <= |s| && s[b..b + |r|] == r && IsRegion(r, open, close)
    ensures Find(s, close, b + |open|) == b + |r| - |close|
  {
    var e := b + |r| - |close|;
    OccursIn(s, r, b, close, e - b);
    forall i | b + |open| <= i < e
      ensures !Occurs(s, close, i)
    {
      OccursIn(s, r, b, close, i - b);
    }
    FindIs(s, close, b + |open|, e);
  }

  lemma FirstRegion(d: Doc, open: Text, close: Text)
    requires d.Region? && IsRegion(d.region, open, close)
    requires forall i :: 0 <= i < |d.gap| ==> !Occurs(Render(d), open, i)
    ensures Look(Render(d), open, close) == Cut(|d.gap|, |d.gap| + |d.region|)
  {
    var s, b := Render(d), |d.gap|;
    assert s[b..b + |d.region|] == d.region;
    OccursIn(s, d.region, b, open, 0);
    FindIs(s, open, 0, b);
    RegionEnds(s, d.region, b, open, close);
  }

  lemma OccursInTail(s: Text, t: Text, i: nat)
    requires s != [] && !Occurs(s, t, i + 1)
    ensures !Occurs(s[1..], t, i)
  {
    if i + |t| <= |s| - 1 {
      OccursInSlice(s, t, 1, |s|, i);
    }
  }

  lemma {:induction false} RemoveAllSkips(g: Text, x: Text, t: Text)
    requires forall i :: 0 <= i < |g| ==> !Occurs(g + x, t, i)
    ensures RemoveAll(g + x, t) == g + RemoveAll(x, t)
    decreases |g|
  {
    var s := g + x;
    if g == [] {
      assert s == x;
    } else if t != [] && |s| >= |t| {
      assert !Occurs(s, t, 0);
      assert s[1..] == g[1..] + x;
      forall i | 0 <= i < |g| - 1
        ensures !Occurs(g[1..] + x, t, i)
      {
        OccursInTail(s, t, i);
      }
      RemoveAllSkips(g[1..], x, t);
    }
  }

  /** Only one region can begin at a place. */
  lemma SameRegion(a: Text, b: Text, x: Text, open: Text, close: Text)
    requires IsRegion(a, open, close) && IsRegion(b, open, close) && Occurs(a + x, b, 0)
    ensures a == b
  {
    var s := a + x;
    var n := if |a| < |b| then |a| else |b|;
    assert s[..|a|] == a && s[..|b|] == b;
    OccursInSlice(s, close, 0, |a|, n - |close|);
    OccursInSlice(s, close, 0, |b|, n - |close|);
  }

  lemma OccursOpens(s: Text, r: Text, open: Text, close: Text, i: nat)
    requires IsRegion(r, open, close) && Occurs(s, r, i)
    ensures Occurs(s, open, i)
  {
    OccursInSlice(s, open, i, i + |r|, 0);
  }

  lemma PrefixedMeans(g: Text, d: Doc)
    ensures Render(Prefixed(g, d)) == g + Render(d) && Gaps(Prefixed(g, d)) == g + Gaps(d)
  {
  }

  lemma {:induction false} OpensNotEmpty(d: Doc, open: Text, rs: set<Text>)
    requires OpensAtRegions(d, open, rs)
    ensures open != []
  {
    if d.End? {
      assert !Occurs(d.gap, open, 0);
    } else {
      OpensNotEmpty(d.rest, open, rs);
    }
  }

  /** Replacing a region by nothing deletes its copies among the regions, and touches nothing else. */
  lemma {:induction false} RemoveAllOfRegion(d: Doc, r: Text, open: Text, close: Text, rs: set<Text>)
    requires OpensAtRegions(d, open, rs) && AllRegions(d, open, close) && IsRegion(r, open, close) && r in rs
    ensures RemoveAll(Render(d), r) == Render(Delete(d, r))
  {
    var s := Render(d);
    OpensNotEmpty(d, open, rs);
    if d.End? {
      forall i | 0 <= i < |s|
        ensures !Occurs(s + [], r, i)
      {
        assert s + [] == s;
        if Occurs(s, r, i) {
          OccursOpens(s, r, open, close, i);
        }
      }
      RemoveAllSkips(s, [], r);
      assert s + [] == s;
    } else {
      RemoveAllOfRegion(d.rest, r, open, close, rs);
      RemoveAllInFirst(d, r, open, close, rs);
      PrefixedMeans(d.gap, Delete(d.rest, r));
    }
  }

  lemma NotInGap(d: Doc, r: Text, open: Text, close: Text, rs: set<Text>)
    requires d.Region? && OpensAtRegions(d, open, rs) && IsRegion(r, open, close)
    ensures forall i :: 0 <= i < |d.gap| ==> !Occurs(d.gap + (d.region + Render(d.rest)), r, i)
  {
    var s := Render(d);
    forall i | 0 <= i < |d.gap|
      ensures !Occurs(s, r, i)
    {
      if Occurs(s, r, i) {
        OccursOpens(s, r, open, close, i);
      }
    }
  }

  lemma NotInOther(d: Doc, r: Text, open: Text, close: Text, rs: set<Text>)
    requires d.Region? && OpensAtRegions(d, open, rs) && IsRegion(d.region, open, close) && IsRegion(r, open, close)
    requires r in rs && d.region != r
    ensures forall i :: 0 <= i < |d.region| ==> !Occurs(d.region + Render(d.rest), r, i)
  {
    var s, x := Render(d), d.region + Render(d.rest);
    forall i | 0 <= i < |d.region|
      ensures !Occurs(x, r, i)
    {
      if i > 0 && i + |r| <= |x| {
        assert s[|d.gap|..] == x;
        OccursInSlice(s, r, |d.gap|, |s|, i);
        assert !Occurs(s, r, |d.gap| + i);
      } else if i == 0 && Occurs(x, r, 0) {
        SameRegion(d.region, r, Render(d.rest), open, close);
      }
    }
  }

  lemma RemoveAllInFirst(d: Doc, r: Text, open: Text, close: Text, rs: set<Text>)
    requires d.Region? && OpensAtRegions(d, open, rs) && AllRegions(d, open, close) && IsRegion(r, open, close)
    requires r != [] && r in rs
    ensures var x := RemoveAll(Render(d.rest), r);
      RemoveAll(Render(d), r) == if d.region == r then d.gap + x else d.gap + (d.region + x)
  {
    var x := d.region + Render(d.rest);
    NotInGap(d, r, open, close, rs);
    RemoveAllSkips(d.gap, x, r);
    if d.region == r {
      assert x[..|r|] == r && x[|r|..] == Render(d.rest);
    } else {
      NotInOther(d, r, open, close, rs);
      RemoveAllSkips(d.region, Render(d.rest), r);
    }
  }

  // ----- deleting copies keeps what is needed -----

  function RegionAt(d: Doc, i: nat): Text
    requires i < Count(d)
  {
    if i == 0 then d.region else RegionAt(d.rest, i - 1)
  }

  /** Dropping one copy first makes no difference to dropping all. */
  lemma {:induction false} DropThenDelete(d: Doc, i: nat)
    requires i < Count(d)
    ensures Delete(Drop(d, i), RegionAt(d, i)) == Delete(d, RegionAt(d, i))
  {
    if i > 0 {
      DropThenDelete(d.rest, i - 1);
    } else if d.rest.Region? && d.rest.region == d.region {
      var rest := Delete(d.rest.rest, d.region);
      assert (d.gap + d.rest.gap) + rest.gap == d.gap + (d.rest.gap + rest.gap);
    }
  }

  lemma {:induction false} DeleteNone(d: Doc, r: Text)
    requires forall i :: 0 <= i < Count(d) ==> RegionAt(d, i) != r
    ensures Delete(d, r) == d
  {
    if d.Region? {
      assert RegionAt(d, 0) != r;
      forall i | 0 <= i < Count(d.rest)
        ensures RegionAt(d.rest, i) != r
      {
        assert RegionAt(d, i + 1) != r;
      }
      DeleteNone(d.rest, r);
    }
  }

  lemma {:induction false} DeleteJoinsNothing(d: Doc, r: Text, open: Text, rs: set<Text>)
    requires JoinsNothing(d, open, rs)
    ensures JoinsNothing(Delete(d, r), open, rs)
    decreases Count(d)
  {
    if i :| 0 <= i < Count(d) && RegionAt(d, i) == r {
      DropThenDelete(d, i);
      DeleteJoinsNothing(Drop(d, i), r, open, rs);
    } else {
      DeleteNone(d, r);
    }
  }

  lemma {:induction false} DeleteKeeps(d: Doc, r: Text, open: Text, close: Text)
    requires AllRegions(d, open, close)
    ensures AllRegions(Delete(d, r), open, close) && Regions(Delete(d, r)) <= Regions(d)
    ensures Gaps(Delete(d, r)) == Gaps(d) && Count(Delete(d, r)) <= Count(d)
    ensures d.Region? && d.region == r ==> Count(Delete(d, r)) < Count(d)
  {
    if d.Region? {
      DeleteKeeps(d.rest, r, open, close);
      PrefixedMeans(d.gap, Delete(d.rest, r));
    }
  }

  lemma AllAtOnceStep(s: Text, r: Text, t: Text, open: Text, close: Text, begin: nat, end: nat)
    requires open != [] && Look(s, open, close) == Cut(begin, end) && s[begin..end] == r && RemoveAll(s, r) == t
    ensures AllAtOnce(s, open, close) == AllAtOnce(t, open, close)
  {
  }

  lemma OneAtATimeStep(s: Text, p: Text, x: Text, t: Text, open: Text, close: Text, begin: nat, end: nat)
    requires open != [] && Look(s, open, close) == Cut(begin, end) && s[..begin] == p && s[end..] == x && t == p + x
    ensures OneAtATime(s, open, close) == OneAtATime(t, open, close)
  {
  }

  lemma SplitAtRegion(g: Text, r: Text, x: Text)
    ensures var s, b, e := g + (r + x), |g|, |g| + |r|; s[..b] == g && s[b..e] == r && s[e..] == x
  {
  }

  /** What one round does to a text of gaps and regions. */
  lemma RoundOnDoc(d: Doc, open: Text, close: Text, rs: set<Text>)
    requires d.Region? && AllRegions(d, open, close) && OpensAtRegions(d, open, rs) && d.region in rs
    ensures var s, b, e := Render(d), |d.gap|, |d.gap| + |d.region|;
      && Look(s, open, close) == Cut(b, e)
      && s[b..e] == d.region && RemoveAll(s, d.region) == Render(Delete(d, d.region))
      && s[..b] == d.gap && s[e..] == Render(d.rest) && Render(Drop(d, 0)) == d.gap + Render(d.rest)
  {
    FirstRegion(d, open, close);
    SplitAtRegion(d.gap, d.region, Render(d.rest));
    RemoveAllOfRegion(d, d.region, open, close, rs);
    PrefixedMeans(d.gap, d.rest);
  }

  lemma {:induction false} AllAtOnceGivesGaps(d: Doc, open: Text, close: Text, rs: set<Text>)
    requires AllRegions(d, open, close) && JoinsNothing(d, open, rs) && Regions(d) <= rs && open != []
    ensures AllAtOnce(Render(d), open, close) == Stripped(Gaps(d))
    decreases Count(d)
  {
    if d.Region? {
      RoundOnDoc(d, open, close, rs);
      AllAtOnceStep(Render(d), d.region, Render(Delete(d, d.region)), open, close, |d.gap|, |d.gap| + |d.region|);
      DeleteKeeps(d, d.region, open, close);
      DeleteJoinsNothing(d, d.region, open, rs);
      AllAtOnceGivesGaps(Delete(d, d.region), open, close, rs);
    }
  }

  lemma {:induction false} OneAtATimeGivesGaps(d: Doc, open: Text, close: Text, rs: set<Text>)
    requires AllRegions(d, open, close) && JoinsNothing(d, open, rs) && Regions(d) <= rs && open != []
    ensures OneAtATime(Render(d), open, close) == Stripped(Gaps(d))
    decreases Count(d)
  {
    if d.Region? {
      RoundOnDoc(d, open, close, rs);
      OneAtATimeStep(Render(d), d.gap, Render(d.rest), Render(Drop(d, 0)), open, close, |d.gap|, |d.gap| + |d.region|);
      PrefixedMeans(d.gap, d.rest);
      assert JoinsNothing(Drop(d, 0), open, rs);
      OneAtATimeGivesGaps(Drop(d, 0), open, close, rs);
    }
  }

  /** Where no deletion joins text into a new begin tag or a new copy of a region, deleting all copies of
      a region at once comes to the same as deleting one region at a time: both end well and leave the
      text between the regions. */
  lemma StrippingAgrees(s: Text, open: Text, close: Text)
    requires (open != [] || close != []) && JoinsNothing(Parse(s, open, close), open, Regions(Parse(s, open, close)))
    ensures AllAtOnce(s, open, close) == OneAtATime(s, open, close) == Stripped(Gaps(Parse(s, open, close)))
  {
    var d := Parse(s, open, close);
    OpensNotEmpty(d, open, Regions(d));
    ParseRenders(s, open, close);
    AllAtOnceGivesGaps(d, open, close, Regions(d));
    OneAtATimeGivesGaps(d, open, close, Regions(d));
  }

  // ----- a condition that one pass over the text decides -----

  /** The character `c` is in no gap, and in every region at index `k` and nowhere else. */
  predicate Marked(d: Doc, c: char, k: nat) {
    && c !in d.gap
    && (d.Region? ==>
          && k < |d.region| && d.region[k] == c && (forall j :: 0 <= j < |d.region| && j != k ==> d.region[j] != c)
          && Marked(d.rest, c, k))
  }

  /** A region starts at index `i` of the text. */
  predicate StartsAt(d: Doc, i: nat) {
    d.Region? && (i == |d.gap| || (i >= |d.gap| + |d.region| && StartsAt(d.rest, i - |d.gap| - |d.region|)))
  }

  lemma {:induction false} MarkAt(d: Doc, c: char, k: nat, i: nat)
    requires Marked(d, c, k) && i < |Render(d)| && Render(d)[i] == c
    ensures i >= k && StartsAt(d, i - k)
  {
    if d.Region? && i >= |d.gap| + |d.region| {
      MarkAt(d.rest, c, k, i - |d.gap| - |d.region|);
    }
  }

  /** So begin tags, and texts that begin with one, are only where regions start. */
  lemma MarkedOccurs(d: Doc, open: Text, k: nat, r: Text, i: nat)
    requires k < |open| && Marked(d, open[k], k) && Occurs(r, open, 0) && Occurs(Render(d), r, i)
    ensures StartsAt(d, i)
  {
    var s := Render(d);
    assert s[i..i + |r|][k] == r[k] == r[0..|open|][k];
    MarkAt(d, open[k], k, i + k);
  }

  lemma {:induction false} MarkedOpens(d: Doc, open: Text, k: nat, rs: set<Text>)
    requires k < |open| && Marked(d, open[k], k) && forall r :: r in rs ==> Occurs(r, open, 0)
    ensures OpensAtRegions(d, open, rs)
  {
    var s := Render(d);
    assert Occurs(open, open, 0);
    forall i | 0 <= i && Occurs(s, open, i)
      ensures StartsAt(d, i)
    {
      MarkedOccurs(d, open, k, open, i);
    }
    forall i, r | 0 <= i && r in rs && Occurs(s, r, i)
      ensures StartsAt(d, i)
    {
      MarkedOccurs(d, open, k, r, i);
    }
    if d.Region? {
      MarkedOpens(d.rest, open, k, rs);
    }
  }

  lemma {:induction false} MarkedDrop(d: Doc, c: char, k: nat, i: nat)
    requires Marked(d, c, k) && i < Count(d)
    ensures Marked(Drop(d, i), c, k)
  {
    if i > 0 {
      MarkedDrop(d.rest, c, k, i - 1);
    }
  }

  lemma {:induction false} MarkedJoinsNothing(d: Doc, open: Text, k: nat, rs: set<Text>)
    requires k < |open| && Marked(d, open[k], k) && forall r :: r in rs ==> Occurs(r, open, 0)
    ensures JoinsNothing(d, open, rs)
    decreases Count(d)
  {
    MarkedOpens(d, open, k, rs);
    forall i | 0 <= i < Count(d)
      ensures JoinsNothing(Drop(d, i), open, rs)
    {
      MarkedDrop(d, open[k], k, i);
      MarkedJoinsNothing(Drop(d, i), open, k, rs);
    }
  }

  lemma {:induction false} RegionsOpen(d: Doc, open: Text, close: Text)
    requires AllRegions(d, open, close)
    ensures forall r :: r in Regions(d) ==> Occurs(r, open, 0)
  {
    if d.Region? {
      RegionsOpen(d.rest, open, close);
    }
  }

  /** If some character of the begin tag is nowhere in the text but at its own place in the begin tag of
      each region, deleting all copies at once and one region at a time agree. */
  lemma StrippingAgreesIfMarked(s: Text, open: Text, close: Text, k: nat)
    requires k < |open| && Marked(Parse(s, open, close), open[k], k)
    ensures AllAtOnce(s, open, close) == OneAtATime(s, open, close) == Stripped(Gaps(Parse(s, open, close)))
  {
    var d := Parse(s, open, close);
    ParseRenders(s, open, close);
    RegionsOpen(d, open, close);
    MarkedJoinsNothing(d, open, k, Regions(d));
    StrippingAgrees(s, open, close);
  }

  /** A begin tag between two copies of a region: the copies go at once and leave it without an end,
      while one at a time it takes the second copy's end. */
  lemma NestedTagsDisagree(b: char, x: char, e: char)
    requires b != e && x != e
    ensures AllAtOnce([b, x, e, b, b, x, e], [b], [e]) == Imbalanced
    ensures OneAtATime([b, x, e, b, b, x, e], [b], [e]) == Stripped([])
  {
    AllAtOnceExample(b, x, e);
    OneAtATimeExample(b, x, e);
  }

  lemma AllAtOnceExample(b: char, x: char, e: char)
    requires b != e && x != e
    ensures AllAtOnce([b, x, e, b, b, x, e], [b], [e]) == Imbalanced
  {
    var r, s, t := [b, x, e], [b, x, e, b, b, x, e], [b, b, x, e];
    assert RemoveAll(s, r) == [b] by {
      assert s[..3] == r && s[3..] == t;
      assert t[..3] == [b, b, x] && t[..3][2] != r[2] && t[1..] == r;
      assert r[..3] == r && r[3..] == [];
      assert RemoveAll(r, r) == RemoveAll([], r) == [];
      assert RemoveAll(t, r) == [b] + RemoveAll(r, r);
    }
    assert s[0..3] == r;
    LookInExample(s, [b], [e], 3);
    AllAtOnceStep(s, r, [b], [b], [e], 0, 3);
  }

  lemma OneAtATimeExample(b: char, x: char, e: char)
    requires b != e && x != e
    ensures OneAtATime([b, x, e, b, b, x, e], [b], [e]) == Stripped([])
  {
    var s, t := [b, x, e, b, b, x, e], [b, b, x, e];
    assert s[3..] == t && t[4..] == [];
    TwoDeleted(s, t, [b], [e], 3);
  }

  /** A text that is two regions. */
  lemma TwoDeleted(s: Text, t: Text, open: Text, close: Text, n: nat)
    requires |open| == |close| == 1 && 1 < n <= |s| && s[n..] == t && |t| > 1
    requires s[0] == open[0] && s[n - 1] == close[0] && forall i :: 0 < i < n - 1 ==> s[i] != close[0]
    requires t[0] == open[0] && t[|t| - 1] == close[0] && forall i :: 0 < i < |t| - 1 ==> t[i] != close[0]
    ensures OneAtATime(s, open, close) == Stripped([])
  {
    FirstDeleted(s, t, open, close, n);
    FirstDeleted(t, [], open, close, |t|);
  }

  /** A region at the start of a text goes and leaves what is behind it. */
  lemma FirstDeleted(s: Text, t: Text, open: Text, close: Text, n: nat)
    requires |open| == |close| == 1 && 1 < n <= |s| && s[n..] == t
    requires s[0] == open[0] && s[n - 1] == close[0] && forall i :: 0 < i < n - 1 ==> s[i] != close[0]
    ensures OneAtATime(s, open, close) == OneAtATime(t, open, close)
  {
    LookInExample(s, open, close, n);
    OneAtATimeStep(s, [], t, t, open, close, 0, n);
  }

  lemma LookInExample(s: Text, open: Text, close: Text, n: nat)
    requires |open| == |close| == 1 && 1 < n <= |s|
    requires s[0] == open[0] && s[n - 1] == close[0] && forall i :: 0 < i < n - 1 ==> s[i] != close[0]
    ensures Look(s, open, close) == Cut(0, n)
  {
    assert s[0..1] == open && s[n - 1..n] == close;
    FindIs(s, open, 0, 0);
    FindIs(s, close, 1, n - 1);
  }
}
