/** The two matchers: the gateway's index (gateway/matcher.py) and the firmware's scan
    (firmware/esp32/event_matcher.cpp). */
module Matching {
  import opened Bytes
  import opened Common
  import Uuid

  /** A rule of the operator's configuration. */
  datatype Rule = Rule(service: string, characteristic: string, prefix: seq<byte>, event: string)

  /** One complete observed value. */
  datatype Write = Write(peer: string, service: string, characteristic: string, payload: seq<byte>)

  const UNKNOWN := "unknown"

  // ---------------------------------------------------------------- gateway/matcher.py

  type CharKey = (string, string)

  function KeyOfRule(r: Rule): CharKey {
    (Uuid.Lower(r.service), Uuid.Lower(r.characteristic))
  }

  function KeyOfWrite(w: Write): CharKey {
    (Uuid.Lower(w.service), Uuid.Lower(w.characteristic))
  }

  predicate PrefixMatches(r: Rule, w: Write) {
    r.prefix == [] || (|w.payload| >= |r.prefix| && w.payload[..|r.prefix|] == r.prefix)
  }

  predicate Matches(r: Rule, w: Write) {
    KeyOfRule(r) == KeyOfWrite(w) && PrefixMatches(r, w)
  }

  /** UUIDs compare without regard to case, and the prefix byte by byte; an empty prefix starts every
      payload. */
  lemma MatchesIff(r: Rule, w: Write)
    ensures Matches(r, w) <==>
      && Uuid.Lower(r.service) == Uuid.Lower(w.service)
      && Uuid.Lower(r.characteristic) == Uuid.Lower(w.characteristic)
      && r.prefix <= w.payload
  {
  }

  /** The event of the first matching rule of the list. */
  function FirstMatch(rules: seq<Rule>, w: Write): Option<string> {
    if rules == [] then None
    else if Matches(rules[0], w) then Some(rules[0].event)
    else FirstMatch(rules[1..], w)
  }

  /** The position of the first matching rule, or the length of the list. */
  function FirstIndex(rules: seq<Rule>, w: Write): (i: nat)
    ensures i <= |rules| && (i < |rules| ==> Matches(rules[i], w))
    ensures forall j :: 0 <= j < i ==> !Matches(rules[j], w)
  {
    if rules == [] || Matches(rules[0], w) then 0 else 1 + FirstIndex(rules[1..], w)
  }

  lemma {:induction false} FirstMatchAtIndex(rules: seq<Rule>, w: Write)
    ensures FirstMatch(rules, w) ==
      if FirstIndex(rules, w) < |rules| then Some(rules[FirstIndex(rules, w)].event) else None
  {
    if rules == [] {
    } else {
      FirstMatchAtIndex(rules[1..], w);
    }
  }

  /** `match(write) or UNKNOWN`: an empty name counts as no name. */
  function Label(event: Option<string>): string {
    if event.None? || event.value == "" then UNKNOWN else event.value
  }

  function Classify(rules: seq<Rule>, w: Write): string {
    Label(FirstMatch(rules, w))
  }

  /** The rules of one characteristic, in list order. */
  function Bucket(rules: seq<Rule>, key: CharKey): seq<Rule> {
    if rules == [] then []
    else
      var before := Bucket(rules[..|rules| - 1], key);
      var last := rules[|rules| - 1];
      if KeyOfRule(last) == key then before + [last] else before
  }

  lemma BucketSnoc(rules: seq<Rule>, r: Rule, key: CharKey)
    ensures Bucket(rules + [r], key) ==
      if KeyOfRule(r) == key then Bucket(rules, key) + [r] else Bucket(rules, key)
  {
    assert (rules + [r])[..|rules|] == rules;
  }

  lemma {:induction false} FirstMatchSnoc(rules: seq<Rule>, r: Rule, w: Write)
    ensures FirstMatch(rules + [r], w) ==
      if FirstMatch(rules, w).Some? then FirstMatch(rules, w)
      else if Matches(r, w) then Some(r.event) else None
  {
    if rules == [] {
      assert (rules + [r])[1..] == [];
    } else {
      assert (rules + [r])[1..] == rules[1..] + [r];
      FirstMatchSnoc(rules[1..], r, w);
    }
  }

  /** Looking only at a characteristic's bucket finds the same rule as scanning the list. */
  lemma {:induction false} BucketFindsFirstMatch(rules: seq<Rule>, w: Write)
    ensures FirstMatch(Bucket(rules, KeyOfWrite(w)), w) == FirstMatch(rules, w)
  {
    if rules == [] {
    } else {
      var init, last := rules[..|rules| - 1], rules[|rules| - 1];
      assert rules == init + [last];
      BucketFindsFirstMatch(init, w);
      FirstMatchSnoc(init, last, w);
      FirstMatchSnoc(Bucket(init, KeyOfWrite(w)), last, w);
    }
  }

  lemma {:induction false} BucketKeys(rules: seq<Rule>, key: CharKey, i: nat)
    requires i < |Bucket(rules, key)|
    ensures KeyOfRule(Bucket(rules, key)[i]) == key
  {
    var init := rules[..|rules| - 1];
    if i < |Bucket(init, key)| {
      BucketKeys(init, key, i);
    }
  }

  class Matcher {
    var byChar: map<CharKey, seq<Rule>>

    /** The index holds exactly the non-empty buckets of `rules`. */
    ghost predicate Indexes(rules: seq<Rule>)
      reads this
    {
      forall key :: if Bucket(rules, key) == [] then key !in byChar
                    else key in byChar && byChar[key] == Bucket(rules, key)
    }

    constructor (rules: seq<Rule>)
      ensures Indexes(rules)
    {
      byChar := map[];
      new;
      var i := 0;
      while i < |rules|
        invariant 0 <= i <= |rules| && Indexes(rules[..i])
      {
        var r := rules[i];
        var key := KeyOfRule(r);
        assert rules[..i + 1] == rules[..i] + [r];
        forall k
          ensures Bucket(rules[..i + 1], k) ==
            if key == k then Bucket(rules[..i], k) + [r] else Bucket(rules[..i], k)
        {
          BucketSnoc(rules[..i], r, k);
        }
        byChar := byChar[key := (if key in byChar then byChar[key] else []) + [r]];
        i := i + 1;
      }
      assert rules[..|rules|] == rules;
    }

    method Match(w: Write, ghost rules: seq<Rule>) returns (event: Option<string>)
      requires Indexes(rules)
      ensures event == FirstMatch(rules, w)
    {
      BucketFindsFirstMatch(rules, w);
      if KeyOfWrite(w) !in byChar {
        return None;
      }
      var candidates := byChar[KeyOfWrite(w)];
      var i := 0;
      while i < |candidates|
        invariant 0 <= i <= |candidates|
        invariant FirstMatch(candidates, w) == FirstMatch(candidates[i..], w)
      {
        var rule := candidates[i];
        BucketKeys(rules, KeyOfWrite(w), i);
        assert candidates[i..][1..] == candidates[i + 1..];
        if rule.prefix == [] {
          return Some(rule.event);
        }
        if |w.payload| >= |rule.prefix| && w.payload[..|rule.prefix|] == rule.prefix {
          return Some(rule.event);
        }
        i := i + 1;
      }
      return None;
    }
  }

  // ---------------------------------------------------------------- event_matcher.cpp

  datatype FwRule = FwRule(service: seq<byte>, characteristic: seq<byte>, prefix: seq<byte>, event: string)

  predicate FwMatches(r: FwRule, service: seq<byte>, characteristic: seq<byte>, payload: seq<byte>) {
    r.service == service && r.characteristic == characteristic && r.prefix <= payload
  }

  function FwFirstMatch(rules: seq<FwRule>, service: seq<byte>, characteristic: seq<byte>,
                        payload: seq<byte>): Option<string> {
    if rules == [] then None
    else if FwMatches(rules[0], service, characteristic, payload) then Some(rules[0].event)
    else FwFirstMatch(rules[1..], service, characteristic, payload)
  }

  class EventMatcher {
    var rules: seq<FwRule>

    constructor ()
      ensures rules == []
    {
      rules := [];
    }

    method AddRule(r: FwRule)
      modifies this
      ensures rules == old(rules) + [r]
    {
      rules := rules + [r];
    }

    method Match(service: seq<byte>, characteristic: seq<byte>, payload: seq<byte>)
      returns (event: Option<string>)
      ensures event == FwFirstMatch(rules, service, characteristic, payload)
    {
      var i := 0;
      while i < |rules|
        invariant 0 <= i <= |rules|
        invariant FwFirstMatch(rules, service, characteristic, payload) ==
                  FwFirstMatch(rules[i..], service, characteristic, payload)
      {
        var rule := rules[i];
        assert rules[i..][1..] == rules[i + 1..];
        i := i + 1;
        if rule.service != service { continue; }
        if rule.characteristic != characteristic { continue; }
        if rule.prefix != [] {
          if |payload| < |rule.prefix| { continue; }
          if payload[..|rule.prefix|] != rule.prefix { continue; }
        }
        return Some(rule.event);
      }
      return None;
    }
  }

  // ---------------------------------------------------------------- agreement

  /** UUIDs as `_normalise_uuid` accepts them: 36 characters, four of them dashes, anywhere. */
  predicate FullRule(r: Rule) {
    Uuid.FullUuid(r.service) && Uuid.FullUuid(r.characteristic)
  }

  predicate FullRules(rules: seq<Rule>) {
    forall i :: 0 <= i < |rules| ==> FullRule(rules[i])
  }

  predicate FullWrite(w: Write) {
    Uuid.FullUuid(w.service) && Uuid.FullUuid(w.characteristic)
  }

  /** UUIDs in 8-4-4-4-12 form. */
  predicate GroupedRule(r: Rule): (g: bool)
    ensures g ==> FullRule(r)
  {
    if Uuid.Grouped(r.service) && Uuid.Grouped(r.characteristic) then
      Uuid.GroupedIsFull(r.service);
      Uuid.GroupedIsFull(r.characteristic);
      true
    else false
  }

  predicate GroupedRules(rules: seq<Rule>): (g: bool)
    ensures g ==> FullRules(rules)
  {
    forall i :: 0 <= i < |rules| ==> GroupedRule(rules[i])
  }

  predicate GroupedWrite(w: Write): (g: bool)
    ensures g ==> FullWrite(w)
  {
    if Uuid.Grouped(w.service) && Uuid.Grouped(w.characteristic) then
      Uuid.GroupedIsFull(w.service);
      Uuid.GroupedIsFull(w.characteristic);
      true
    else false
  }

  function ParseFull(s: string): seq<byte>
    requires Uuid.FullUuid(s)
  {
    Uuid.ComparisonsAgreeIff(s, s);
    Uuid.Parse(s).value
  }

  function FwRuleOf(r: Rule): FwRule
    requires FullRule(r)
  {
    FwRule(ParseFull(r.service), ParseFull(r.characteristic), r.prefix, r.event)
  }

  function FwRulesOf(rules: seq<Rule>): seq<FwRule>
    requires FullRules(rules)
  {
    seq(|rules|, i requires 0 <= i < |rules| => FwRuleOf(rules[i]))
  }

  /** The firmware's match of a write, its rules parsed from the same texts. */
  function FwMatchOf(rules: seq<Rule>, w: Write): Option<string>
    requires FullRules(rules) && FullWrite(w)
  {
    FwFirstMatch(FwRulesOf(rules), ParseFull(w.service), ParseFull(w.characteristic), w.payload)
  }

  predicate FwRuleMatches(r: Rule, w: Write)
    requires FullRule(r) && FullWrite(w)
  {
    FwMatches(FwRuleOf(r), ParseFull(w.service), ParseFull(w.characteristic), w.payload)
  }

  /** The position of the rule the firmware's scan picks, or the length of the list. */
  function FwIndexOf(rules: seq<Rule>, w: Write): (i: nat)
    requires FullRules(rules) && FullWrite(w)
    ensures i <= |rules| && (i < |rules| ==> FwRuleMatches(rules[i], w))
    ensures forall j :: 0 <= j < i ==> !FwRuleMatches(rules[j], w)
  {
    if rules == [] || FwRuleMatches(rules[0], w) then 0 else 1 + FwIndexOf(rules[1..], w)
  }

  lemma {:induction false} FwMatchAtIndex(rules: seq<Rule>, w: Write)
    requires FullRules(rules) && FullWrite(w)
    ensures FwMatchOf(rules, w) ==
      if FwIndexOf(rules, w) < |rules| then Some(rules[FwIndexOf(rules, w)].event) else None
  {
    if rules == [] {
    } else {
      var fw := FwRulesOf(rules);
      assert fw[1..] == FwRulesOf(rules[1..]) && fw[0] == FwRuleOf(rules[0]);
      FwMatchAtIndex(rules[1..], w);
    }
  }

  /** A rule matches a write in the gateway exactly when it does in the firmware and both its
      UUIDs have their dashes where the write's have them. */
  lemma RuleMatchesAgreeIff(r: Rule, w: Write)
    requires FullRule(r) && FullWrite(w)
    ensures Matches(r, w) <==>
      && FwRuleMatches(r, w)
      && Uuid.SameDashes(r.service, w.service) && Uuid.SameDashes(r.characteristic, w.characteristic)
  {
    Uuid.ComparisonsAgreeIff(r.service, w.service);
    Uuid.ComparisonsAgreeIff(r.characteristic, w.characteristic);
  }

  lemma GroupedMatchesAgree(r: Rule, w: Write)
    requires FullRule(r) && GroupedWrite(w)
    ensures Matches(r, w) <==> GroupedRule(r) && FwRuleMatches(r, w)
  {
    RuleMatchesAgreeIff(r, w);
    if Matches(r, w) {
      Uuid.SameDashesGrouped(r.service, w.service);
      Uuid.SameDashesGrouped(r.characteristic, w.characteristic);
    }
    if GroupedRule(r) {
      Uuid.GroupedComparisonsAgree(r.service, w.service);
      Uuid.GroupedComparisonsAgree(r.characteristic, w.characteristic);
    }
  }

  predicate FwCovers(q: Rule, r: Rule)
    requires FullRule(q) && FullRule(r)
  {
    ParseFull(q.service) == ParseFull(r.service) && ParseFull(q.characteristic) == ParseFull(r.characteristic) &&
    q.prefix <= r.prefix
  }

  /** An earlier rule takes, in the firmware, every write that rule `i` could match. */
  ghost predicate FwShadowed(rules: seq<Rule>, i: nat)
    requires FullRules(rules) && i < |rules|
  {
    exists j :: 0 <= j < i && FwCovers(rules[j], rules[i])
  }

  lemma CoveredMatchesToo(q: Rule, r: Rule, w: Write)
    requires FullRule(q) && FullRule(r) && FullWrite(w) && FwCovers(q, r) && FwRuleMatches(r, w)
    ensures FwRuleMatches(q, w)
  {
    assert q.prefix == r.prefix[..|q.prefix|] == w.payload[..|r.prefix|][..|q.prefix|];
  }

  /** A write in 8-4-4-4-12 form that carries the bytes and the prefix of rule `r`. */
  lemma WriteFor(r: Rule) returns (w: Write)
    requires FullRule(r)
    ensures GroupedWrite(w) && FwRuleMatches(r, w)
    ensures forall q :: FullRule(q) && FwRuleMatches(q, w) ==> FwCovers(q, r)
  {
    var s := Uuid.GroupedTwin(r.service);
    var c := Uuid.GroupedTwin(r.characteristic);
    w := Write("", s, c, r.prefix);
  }

  ghost predicate UngroupedShadowed(rules: seq<Rule>)
    requires FullRules(rules)
  {
    forall i :: 0 <= i < |rules| && !GroupedRule(rules[i]) ==> FwShadowed(rules, i)
  }

  lemma ShadowedNeverPicked(rules: seq<Rule>, w: Write, i: nat)
    requires FullRules(rules) && FullWrite(w) && i < |rules| && FwShadowed(rules, i)
    ensures FwIndexOf(rules, w) != i
  {
    var j :| 0 <= j < i && FwCovers(rules[j], rules[i]);
    if FwRuleMatches(rules[i], w) {
      CoveredMatchesToo(rules[j], rules[i], w);
    }
  }

  lemma PickedAlike(rules: seq<Rule>, w: Write)
    requires FullRules(rules) && GroupedWrite(w) && UngroupedShadowed(rules)
    ensures FwIndexOf(rules, w) == FirstIndex(rules, w)
  {
    var i := FwIndexOf(rules, w);
    if i < |rules| && !GroupedRule(rules[i]) {
      ShadowedNeverPicked(rules, w, i);
    }
    forall j | 0 <= j < |rules|
      ensures Matches(rules[j], w) <==> GroupedRule(rules[j]) && FwRuleMatches(rules[j], w)
    {
      GroupedMatchesAgree(rules[j], w);
    }
  }

  lemma UnshadowedPickedApart(rules: seq<Rule>, i: nat) returns (w: Write)
    requires FullRules(rules) && i < |rules| && !GroupedRule(rules[i]) && !FwShadowed(rules, i)
    ensures GroupedWrite(w) && FwIndexOf(rules, w) == i && FirstIndex(rules, w) != i
  {
    w := WriteFor(rules[i]);
    forall j | 0 <= j < i
      ensures !FwRuleMatches(rules[j], w)
    {
      assert !FwCovers(rules[j], rules[i]);
    }
    GroupedMatchesAgree(rules[i], w);
  }

  /** For rules with any UUIDs the gateway accepts and writes in 8-4-4-4-12 form, index and scan
      pick the same rule for every write exactly when each rule not in that form is preceded by
      one with the same bytes and a prefix that starts its own. */
  lemma MatchersAgreeIff(rules: seq<Rule>)
    requires FullRules(rules)
    ensures (forall w :: GroupedWrite(w) ==> FwIndexOf(rules, w) == FirstIndex(rules, w))
            <==> UngroupedShadowed(rules)
  {
    if UngroupedShadowed(rules) {
      forall w | GroupedWrite(w)
        ensures FwIndexOf(rules, w) == FirstIndex(rules, w)
      {
        PickedAlike(rules, w);
      }
    } else {
      var i :| 0 <= i < |rules| && !GroupedRule(rules[i]) && !FwShadowed(rules, i);
      var w := UnshadowedPickedApart(rules, i);
    }
  }

  /** Over UUIDs in 8-4-4-4-12 form, index and scan give the same event for every write. */
  lemma MatchersAgree(rules: seq<Rule>, w: Write)
    requires GroupedRules(rules) && GroupedWrite(w)
    ensures FirstMatch(rules, w) == FwMatchOf(rules, w)
  {
    PickedAlike(rules, w);
    FirstMatchAtIndex(rules, w);
    FwMatchAtIndex(rules, w);
  }

  // ---------------------------------------------------------------- rule order

  /** Rules of one characteristic that some payload could match together give one label. */
  ghost predicate Unambiguous(rules: seq<Rule>) {
    forall q, r :: q in rules && r in rules && KeyOfRule(q) == KeyOfRule(r) && q.prefix <= r.prefix ==>
      Label(Some(q.event)) == Label(Some(r.event))
  }

  /** No prefix on a characteristic starts another one there. */
  ghost predicate PrefixesIndependent(rules: seq<Rule>) {
    forall i, j :: 0 <= i < |rules| && 0 <= j < |rules| && i != j && KeyOfRule(rules[i]) == KeyOfRule(rules[j]) ==>
      !(rules[i].prefix <= rules[j].prefix)
  }

  lemma {:induction false} FirstMatchWitness(rules: seq<Rule>, w: Write)
    ensures FirstMatch(rules, w).Some? ==>
      exists r :: r in rules && Matches(r, w) && FirstMatch(rules, w) == Some(r.event)
    ensures FirstMatch(rules, w).None? ==> forall r :: r in rules ==> !Matches(r, w)
  {
    if rules != [] && !Matches(rules[0], w) {
      FirstMatchWitness(rules[1..], w);
      assert forall r :: r in rules <==> r == rules[0] || r in rules[1..];
    } else if rules != [] {
      assert rules[0] in rules;
    }
  }

  lemma SameMembers(rules: seq<Rule>, other: seq<Rule>)
    requires multiset(rules) == multiset(other)
    ensures forall r :: r in rules <==> r in other
  {
    assert forall r :: r in rules <==> r in multiset(rules);
    assert forall r :: r in other <==> r in multiset(other);
  }

  /** Two rules that match one write have prefixes of which one starts the other. */
  lemma MatchingTogether(q: Rule, r: Rule, w: Write)
    requires Matches(q, w) && Matches(r, w)
    ensures KeyOfRule(q) == KeyOfRule(r) && (q.prefix <= r.prefix || r.prefix <= q.prefix)
  {
    assert q.prefix <= w.payload && r.prefix <= w.payload;
    if |q.prefix| <= |r.prefix| {
      assert q.prefix == w.payload[..|r.prefix|][..|q.prefix|];
    } else {
      assert r.prefix == w.payload[..|q.prefix|][..|r.prefix|];
    }
  }

  lemma ReorderedNoMatch(rules: seq<Rule>, other: seq<Rule>, w: Write)
    requires multiset(rules) == multiset(other) && FirstMatch(rules, w).None?
    ensures FirstMatch(other, w).None?
  {
    SameMembers(rules, other);
    FirstMatchWitness(rules, w);
    FirstMatchWitness(other, w);
    hide FirstMatch, Matches;
  }

  /** Under either order the rule that matches first is one of the same rules, and the two can
      match together. */
  lemma ReorderedMatch(rules: seq<Rule>, other: seq<Rule>, w: Write) returns (q: Rule, r: Rule)
    requires multiset(rules) == multiset(other) && FirstMatch(rules, w).Some?
    ensures q in rules && FirstMatch(rules, w) == Some(q.event)
    ensures r in rules && FirstMatch(other, w) == Some(r.event)
    ensures KeyOfRule(q) == KeyOfRule(r) && (q.prefix <= r.prefix || r.prefix <= q.prefix)
  {
    SameMembers(rules, other);
    FirstMatchWitness(rules, w);
    FirstMatchWitness(other, w);
    hide FirstMatch, Matches, KeyOfRule;
    q :| q in rules && Matches(q, w) && FirstMatch(rules, w) == Some(q.event);
    assert q in other;
    r :| r in other && Matches(r, w) && FirstMatch(other, w) == Some(r.event);
    MatchingTogether(q, r, w);
  }

  lemma ReorderingKeepsLabel(rules: seq<Rule>, other: seq<Rule>, w: Write)
    requires multiset(rules) == multiset(other) && Unambiguous(rules)
    ensures Classify(rules, w) == Classify(other, w)
  {
    hide FirstMatch, KeyOfRule;
    if FirstMatch(rules, w).Some? {
      var q, r := ReorderedMatch(rules, other, w);
    } else {
      ReorderedNoMatch(rules, other, w);
    }
  }

  lemma BringToFront(rules: seq<Rule>, r: Rule)
    returns (other: seq<Rule>)
    requires r in rules
    ensures multiset(other) == multiset(rules) && other != [] && other[0] == r
  {
    var i :| 0 <= i < |rules| && rules[i] == r;
    other := [r] + (rules[..i] + rules[i + 1..]);
    assert rules == rules[..i] + [r] + rules[i + 1..];
  }

  /** The label of every write is the same under every order of the rules exactly when rules
      that can match together carry one label; that the triples are distinct, which is all
      load_events checks, does not suffice. */
  lemma OrderIrrelevantIff(rules: seq<Rule>)
    ensures (forall other, w :: multiset(other) == multiset(rules) ==> Classify(other, w) == Classify(rules, w))
            <==> Unambiguous(rules)
  {
    if Unambiguous(rules) {
      forall other, w | multiset(other) == multiset(rules)
        ensures Classify(other, w) == Classify(rules, w)
      {
        ReorderingKeepsLabel(rules, other, w);
      }
    } else {
      var q, r :| q in rules && r in rules && KeyOfRule(q) == KeyOfRule(r) && q.prefix <= r.prefix &&
        Label(Some(q.event)) != Label(Some(r.event));
      var w := Write("", q.service, q.characteristic, r.prefix);
      var qFirst := BringToFront(rules, q);
      var rFirst := BringToFront(rules, r);
      assert Matches(q, w) && Matches(r, w);
      assert Classify(qFirst, w) != Classify(rFirst, w);
    }
  }

  const DEMO_SERVICE := "00000000-0000-1000-8000-00805f9b34fb"
  const DEMO_CHARACTERISTIC := "11111111-1111-1111-1111-111111111111"

  lemma DemoUuidsGrouped()
    ensures Uuid.Grouped(DEMO_SERVICE) && Uuid.Grouped(DEMO_CHARACTERISTIC)
  {
  }

  /** Distinct triples do not make order irrelevant: two rules of one characteristic, one prefix
      starting the other, label one write differently in the two orders. */
  lemma DistinctTriplesNotEnough()
    ensures var a := Rule(DEMO_SERVICE, DEMO_CHARACTERISTIC, [0xAA], "short");
      var b := Rule(DEMO_SERVICE, DEMO_CHARACTERISTIC, [0xAA, 0x01], "long");
      var w := Write("p", DEMO_SERVICE, DEMO_CHARACTERISTIC, [0xAA, 0x01]);
      && GroupedRules([a, b]) && GroupedWrite(w)
      && (a.service, a.characteristic, a.prefix) != (b.service, b.characteristic, b.prefix)
      && Classify([a, b], w) == "short" && Classify([b, a], w) == "long"
  {
    DemoUuidsGrouped();
    hide Uuid.Grouped, Uuid.Lower;
    var a := Rule(DEMO_SERVICE, DEMO_CHARACTERISTIC, [0xAA], "short");
    var b := Rule(DEMO_SERVICE, DEMO_CHARACTERISTIC, [0xAA, 0x01], "long");
    var w := Write("p", DEMO_SERVICE, DEMO_CHARACTERISTIC, [0xAA, 0x01]);
    assert w.payload[..1] == [0xAA] && w.payload[..2] == [0xAA, 0x01];
    assert Matches(a, w) && Matches(b, w);
    assert FirstMatch([a, b], w) == Some("short") && FirstMatch([b, a], w) == Some("long");
  }

  /** Order is irrelevant in particular when no prefix on a characteristic starts another. */
  lemma IndependentIsUnambiguous(rules: seq<Rule>)
    requires PrefixesIndependent(rules)
    ensures Unambiguous(rules)
  {
    forall q, r | q in rules && r in rules && KeyOfRule(q) == KeyOfRule(r) && q.prefix <= r.prefix
      ensures Label(Some(q.event)) == Label(Some(r.event))
    {
      var i :| 0 <= i < |rules| && rules[i] == q;
      var j :| 0 <= j < |rules| && rules[j] == r;
    }
  }

  /** A name under which the gateway logs a match without counting it. */
  predicate Improper(r: Rule) {
    r.event == "" || r.event == UNKNOWN
  }

  ghost predicate ProperNames(rules: seq<Rule>) {
    forall r :: r in rules ==> !Improper(r)
  }

  /** Rules of one characteristic that some payload could match together are all counted or all
      not. */
  ghost predicate CountedTogether(rules: seq<Rule>) {
    forall q, r :: q in rules && r in rules && KeyOfRule(q) == KeyOfRule(r) && q.prefix <= r.prefix ==>
      (Improper(q) <==> Improper(r))
  }

  /** Whether a write is counted then does not depend on the order of the rules. */
  lemma ReorderingKeepsCounting(rules: seq<Rule>, other: seq<Rule>, w: Write)
    requires multiset(rules) == multiset(other) && CountedTogether(rules)
    ensures Classify(rules, w) == UNKNOWN <==> Classify(other, w) == UNKNOWN
  {
    hide FirstMatch, KeyOfRule;
    if FirstMatch(rules, w).Some? {
      var q, r := ReorderedMatch(rules, other, w);
    } else {
      ReorderedNoMatch(rules, other, w);
    }
  }

  /** Two orders and a write that is counted under one of them only. */
  lemma OrderDecidesCounting(rules: seq<Rule>, q: Rule, r: Rule)
    returns (first: seq<Rule>, second: seq<Rule>, w: Write)
    requires q in rules && r in rules && KeyOfRule(q) == KeyOfRule(r) && q.prefix <= r.prefix
    requires Improper(q) != Improper(r)
    ensures multiset(first) == multiset(rules) && multiset(second) == multiset(rules)
    ensures !(Classify(first, w) == UNKNOWN <==> Classify(second, w) == UNKNOWN)
  {
    w := Write("", q.service, q.characteristic, r.prefix);
    first := BringToFront(rules, q);
    second := BringToFront(rules, r);
    assert Matches(q, w) && Matches(r, w);
  }
}
