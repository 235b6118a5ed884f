/** The codec between storage-policy constraints and PBM subprofiles
    (`_to_subprofiles`, `_from_subprofiles`). */
module StoragePolicy {
  import opened Basics

  const TAGS_ID := "com.vmware.storage.tag"

  const TAGS_NS := "https://www.vmware.com/storage/tag"

  /** A Python dict: keys in insertion order, each once. */
  type Dict<V> = seq<(string, V)>

  ghost predicate IsDict<V>(d: Dict<V>) {
    forall i, j :: 0 <= i < j < |d| ==> d[i].0 != d[j].0
  }

  /** `d[k] = v`: in place when the key is there, at the end otherwise. */
  function Put<V>(d: Dict<V>, k: string, v: V): Dict<V> {
    if d == [] then [(k, v)]
    else if d[0].0 == k then [(k, v)] + d[1..]
    else [d[0]] + Put(d[1..], k, v)
  }

  /** A value as PBM carries it; only discrete sets of texts are ever looked into. */
  datatype PbmValue = Scalar(id: int) | Discrete(values: seq<string>)

  /** One ruleset; a missing dict and an empty one are the same to the encoder. */
  datatype Ruleset = Ruleset(capabilities: Dict<PbmValue>, tags: Dict<seq<string>>)

  datatype Property = Property(id: string, negated: bool, value: PbmValue)

  /** A capability instance: its constraints, each a list of properties. */
  datatype Rule = Rule(ns: string, id: string, constraint: seq<seq<Property>>)

  datatype Constraints = SubProfiles(subs: seq<seq<Rule>>) | OtherConstraints

  /** `IndexError`: a rule without a constraint, or whose first one has no
      property. `AttributeError`: a tag rule without a discrete set. */
  datatype Decoded<T> = Read(value: T) | IndexError | AttributeError

  // ----- text -----

  /** The part of `s` before the first dot; all of it when there is none. */
  function Before(s: string): (r: string)
    ensures '.' !in r
  {
    if s == "" || s[0] == '.' then ""
    else
      var rest := Before(s[1..]);
      assert '.' !in [s[0]];
      [s[0]] + rest
  }

  /** The part after the first dot; nothing when there is none. */
  function After(s: string): string {
    if s == "" then "" else if s[0] == '.' then s[1..] else After(s[1..])
  }

  lemma {:induction false} SplitAtDot(s: string)
    ensures Before(s) + "." + After(s) == if '.' in s then s else s + "."
  {
    if s != "" && s[0] != '.' {
      SplitAtDot(s[1..]);
      assert [s[0]] + s[1..] == s;
      var b, a := Before(s[1..]), After(s[1..]);
      assert [s[0]] + b + "." + a == [s[0]] + (b + "." + a);
      assert [s[0]] + (s[1..] + ".") == s + ".";
    } else if s != "" {
      assert "" + "." + s[1..] == s;
    }
  }

  /** Lexicographic order of texts by code point. */
  predicate TextLeq(a: string, b: string) {
    a == "" || (b != "" && (a[0] < b[0] || (a[0] == b[0] && TextLeq(a[1..], b[1..]))))
  }

  ghost predicate SmallerAt(a: string, b: string, i: int) {
    0 <= i < |a| && i < |b| && a[..i] == b[..i] && a[i] < b[i]
  }

  /** One text is before another when it starts it, or is smaller where they first differ. */
  lemma {:induction false} TextLeqIs(a: string, b: string)
    ensures TextLeq(a, b) <==> a <= b || exists i :: SmallerAt(a, b, i)
  {
    if a != "" && b != "" && a[0] == b[0] {
      TextLeqIs(a[1..], b[1..]);
      assert a <= b <==> a[1..] <= b[1..] by {
        assert a == [a[0]] + a[1..] && b == [b[0]] + b[1..];
      }
      if i :| SmallerAt(a[1..], b[1..], i) {
        assert SmallerAt(a, b, i + 1) by {
          assert a[..i + 1] == [a[0]] + a[1..][..i] && b[..i + 1] == [b[0]] + b[1..][..i];
        }
      }
      if i :| SmallerAt(a, b, i) {
        assert i > 0 && a[..i][1..] == a[1..][..i - 1] && b[..i][1..] == b[1..][..i - 1];
        assert SmallerAt(a[1..], b[1..], i - 1);
      }
    } else if a != "" && b != "" {
      assert a[0] < b[0] ==> SmallerAt(a, b, 0);
      if i :| SmallerAt(a, b, i) {
        assert i > 0 ==> a[..i][0] == b[..i][0];
      }
    }
  }

  function Insert(x: string, s: seq<string>): seq<string> {
    if s == [] || TextLeq(x, s[0]) then [x] + s else [s[0]] + Insert(x, s[1..])
  }

  /** Python's `sorted`. */
  function SortTexts(s: seq<string>): seq<string> {
    if s == [] then [] else Insert(s[0], SortTexts(s[1..]))
  }

  ghost predicate InOrder(s: seq<string>) {
    forall i :: 0 < i < |s| ==> TextLeq(s[i - 1], s[i])
  }

  lemma {:induction false} TextLeqTotal(a: string, b: string)
    ensures TextLeq(a, b) || TextLeq(b, a)
  {
    if a != "" && b != "" && a[0] == b[0] {
      TextLeqTotal(a[1..], b[1..]);
    }
  }

  lemma {:induction false} InsertSorted(x: string, s: seq<string>)
    requires InOrder(s)
    ensures InOrder(Insert(x, s)) && multiset(Insert(x, s)) == multiset(s) + multiset{x}
    ensures s != [] ==> Insert(x, s)[0] == s[0] || Insert(x, s)[0] == x
  {
    if s == [] || TextLeq(x, s[0]) {
    } else {
      TextLeqTotal(x, s[0]);
      var rest := Insert(x, s[1..]);
      assert InOrder(s[1..]) by {
        forall i | 0 < i < |s[1..]|
          ensures TextLeq(s[1..][i - 1], s[1..][i])
        {
          assert TextLeq(s[i], s[i + 1]);
        }
      }
      InsertSorted(x, s[1..]);
      assert s == [s[0]] + s[1..];
      assert TextLeq(s[0], rest[0]) by {
        if |s| > 1 {
          assert TextLeq(s[0], s[1]);
        }
      }
    }
  }

  lemma {:induction false} SortTextsSorts(s: seq<string>)
    ensures InOrder(SortTexts(s)) && multiset(SortTexts(s)) == multiset(s)
  {
    if s == [] {
    } else {
      SortTextsSorts(s[1..]);
      InsertSorted(s[0], SortTexts(s[1..]));
      assert s == [s[0]] + s[1..];
    }
  }

  // ----- encoding -----

  function CapRule(key: string, value: PbmValue): Rule {
    Rule(Before(key), After(key), [[Property(After(key), false, value)]])
  }

  predicate IsNegated(category: string) {
    category != "" && category[0] == '!'
  }

  function Category(category: string): string {
    if IsNegated(category) then category[1..] else category
  }

  function TagRule(category: string, tags: seq<string>): Rule {
    var property := TAGS_ID + "." + Category(category) + ".property";
    Rule(TAGS_NS, Category(category), [[Property(property, IsNegated(category), Discrete(tags))]])
  }

  function CapRules(d: Dict<PbmValue>): (rules: seq<Rule>)
    ensures |rules| == |d|
  {
    seq(|d|, i requires 0 <= i < |d| => CapRule(d[i].0, d[i].1))
  }

  function TagRules(d: Dict<seq<string>>): (rules: seq<Rule>)
    ensures |rules| == |d|
  {
    seq(|d|, i requires 0 <= i < |d| => TagRule(d[i].0, d[i].1))
  }

  function Rules(r: Ruleset): seq<Rule> {
    CapRules(r.capabilities) + TagRules(r.tags)
  }

  predicate IsEmpty(r: Ruleset) {
    r.capabilities == [] && r.tags == []
  }

  /** One subprofile for each ruleset that has a rule, in order. */
  function Encode(rulesets: seq<Ruleset>): seq<seq<Rule>> {
    if rulesets == [] then []
    else
      var last := rulesets[|rulesets| - 1];
      Encode(rulesets[..|rulesets| - 1]) + if IsEmpty(last) then [] else [Rules(last)]
  }

  method ToSubprofiles(rulesets: Option<seq<Ruleset>>) returns (res: seq<seq<Rule>>)
    ensures res == Encode(rulesets.Or([]))
  {
    res := [];
    var all := rulesets.Or([]);
    for i := 0 to |all|
      invariant res == Encode(all[..i])
    {
      var capabilitySpec, tagSpec := all[i].capabilities, all[i].tags;
      var rules := [];
      for j := 0 to |capabilitySpec|
        invariant rules == CapRules(capabilitySpec[..j])
      {
        var key, value := capabilitySpec[j].0, capabilitySpec[j].1;
        rules := rules + [Rule(Before(key), After(key), [[Property(After(key), false, value)]])];
      }
      assert capabilitySpec[..|capabilitySpec|] == capabilitySpec;
      for j := 0 to |tagSpec|
        invariant rules == CapRules(capabilitySpec) + TagRules(tagSpec[..j])
      {
        var category, negated := tagSpec[j].0, false;
        if category != "" && category[0] == '!' {
          category, negated := category[1..], true;
        }
        var property := Property(TAGS_ID + "." + category + ".property", negated, Discrete(tagSpec[j].1));
        var rule := Rule(TAGS_NS, category, [[property]]);
        rules := rules + [rule];
        assert TagRules(tagSpec[..j + 1]) == TagRules(tagSpec[..j]) + [rule];
      }
      assert tagSpec[..|tagSpec|] == tagSpec;
      assert all[..i + 1][..i] == all[..i];
      if rules != [] {
        res := res + [rules];
      }
    }
    assert all[..|all|] == all;
  }

  // ----- decoding -----

  /** One more rule read into a ruleset, by the first property of its first constraint. */
  function ReadRule(r: Ruleset, rule: Rule): Decoded<Ruleset> {
    if rule.constraint == [] || rule.constraint[0] == [] then IndexError
    else
      var p := rule.constraint[0][0];
      if rule.ns != TAGS_NS then Read(r.(capabilities := Put(r.capabilities, rule.ns + "." + rule.id, p.value)))
      else if p.value.Discrete? then
        Read(r.(tags := Put(r.tags, (if p.negated then "!" else "") + rule.id, SortTexts(p.value.values))))
      else AttributeError
  }

  function DecodeRules(rules: seq<Rule>): Decoded<Ruleset> {
    if rules == [] then Read(Ruleset([], []))
    else
      var front := DecodeRules(rules[..|rules| - 1]);
      if front.Read? then ReadRule(front.value, rules[|rules| - 1]) else front
  }

  /** The outcome of one more subprofile after those before it. */
  function Append(front: Decoded<seq<Ruleset>>, r: Decoded<Ruleset>): Decoded<seq<Ruleset>> {
    if !front.Read? then front
    else if r.Read? then Read(front.value + [r.value])
    else if r.IndexError? then IndexError
    else AttributeError
  }

  function Decode(subs: seq<seq<Rule>>): Decoded<seq<Ruleset>> {
    if subs == [] then Read([])
    else Append(Decode(subs[..|subs| - 1]), DecodeRules(subs[|subs| - 1]))
  }

  lemma DecodeNothing()
    ensures DecodeRules([]) == Read(Ruleset([], [])) && Decode([]) == Read([])
  {
  }

  lemma DecodeSnoc(rules: seq<Rule>, rule: Rule)
    ensures DecodeRules(rules + [rule]) ==
            if DecodeRules(rules).Read? then ReadRule(DecodeRules(rules).value, rule) else DecodeRules(rules)
  {
    assert (rules + [rule])[..|rules|] == rules;
  }

  lemma DecodeSub(subs: seq<seq<Rule>>, sub: seq<Rule>)
    ensures Decode(subs + [sub]) == Append(Decode(subs), DecodeRules(sub))
  {
    assert (subs + [sub])[..|subs|] == subs;
  }

  lemma {:induction false} DecodeStops(rules: seq<Rule>, n: nat)
    requires n <= |rules| && !DecodeRules(rules[..n]).Read?
    ensures DecodeRules(rules) == DecodeRules(rules[..n])
    decreases |rules| - n
  {
    hide DecodeRules;
    if n == |rules| {
      assert rules[..n] == rules;
    } else {
      assert rules[..n + 1] == rules[..n] + [rules[n]];
      DecodeSnoc(rules[..n], rules[n]);
      DecodeStops(rules, n + 1);
    }
  }

  lemma {:induction false} DecodeAllStops(subs: seq<seq<Rule>>, n: nat)
    requires n <= |subs| && !Decode(subs[..n]).Read?
    ensures Decode(subs) == Decode(subs[..n])
    decreases |subs| - n
  {
    if n == |subs| {
      assert subs[..n] == subs;
    } else {
      assert subs[..n + 1] == subs[..n] + [subs[n]];
      DecodeSub(subs[..n], subs[n]);
      DecodeAllStops(subs, n + 1);
    }
  }

  method FromSubprofiles(c: Constraints) returns (r: Decoded<Option<seq<Ruleset>>>)
    ensures r == match c
                 case OtherConstraints => Read(None)
                 case SubProfiles(subs) =>
                   match Decode(subs)
                   case Read(rulesets) => Read(Some(rulesets))
                   case IndexError => IndexError
                   case AttributeError => AttributeError
  {
    hide DecodeRules, Decode, SortTexts, Put;
    if c.OtherConstraints? {
      return Read(None);
    }
    DecodeNothing();
    var res := [];
    for i := 0 to |c.subs|
      invariant Decode(c.subs[..i]) == Read(res)
    {
      assert c.subs[..i + 1] == c.subs[..i] + [c.subs[i]];
      var sub := c.subs[i];
      DecodeSub(c.subs[..i], sub);
      var capabilities, tags := [], [];
      for j := 0 to |sub|
        invariant DecodeRules(sub[..j]) == Read(Ruleset(capabilities, tags))
      {
        assert sub[..j + 1] == sub[..j] + [sub[j]];
        var rule := sub[j];
        DecodeSnoc(sub[..j], rule);
        if rule.constraint == [] || rule.constraint[0] == [] {
          DecodeStops(sub, j + 1);
          DecodeAllStops(c.subs, i + 1);
          return IndexError;
        }
        var constraint := rule.constraint[0][0];
        if rule.ns == TAGS_NS {
          var name := rule.id;
          if constraint.negated {
            name := "!" + name;
          }
          assert (if constraint.negated then "!" else "") + rule.id == name;
          if !constraint.value.Discrete? {
            DecodeStops(sub, j + 1);
            DecodeAllStops(c.subs, i + 1);
            return AttributeError;
          }
          tags := Put(tags, name, SortTexts(constraint.value.values));
        } else {
          capabilities := Put(capabilities, rule.ns + "." + rule.id, constraint.value);
        }
      }
      assert sub[..|sub|] == sub;
      res := res + [Ruleset(capabilities, tags)];
    }
    assert c.subs[..|c.subs|] == c.subs;
    r := Read(Some(res));
  }

  /** A rule both branches of the reader can take. */
  predicate Readable(rule: Rule) {
    && rule.constraint != [] && rule.constraint[0] != []
    && (rule.ns == TAGS_NS ==> rule.constraint[0][0].value.Discrete?)
  }

  ghost predicate AllReadable(sub: seq<Rule>) {
    forall rule :: rule in sub ==> Readable(rule)
  }

  /** Reading succeeds exactly when every rule can be read, whichever comes first. */
  lemma {:induction false} RulesReadIff(rules: seq<Rule>)
    ensures DecodeRules(rules).Read? <==> AllReadable(rules)
  {
    if rules == [] {
    } else {
      var front, last := rules[..|rules| - 1], rules[|rules| - 1];
      assert rules == front + [last];
      RulesReadIff(front);
      DecodeSnoc(front, last);
      assert AllReadable(rules) <==> AllReadable(front) && Readable(last) by {
        assert last in rules && forall rule :: rule in front ==> rule in rules;
      }
    }
  }

  lemma {:induction false} ReadsIff(subs: seq<seq<Rule>>)
    ensures Decode(subs).Read? <==> forall sub :: sub in subs ==> AllReadable(sub)
  {
    hide DecodeRules, Readable;
    if subs == [] {
    } else {
      var front, last := subs[..|subs| - 1], subs[|subs| - 1];
      assert subs == front + [last];
      ReadsIff(front);
      RulesReadIff(last);
      DecodeSub(front, last);
    }
  }

  // ----- the round trip -----

  function SortTags(d: Dict<seq<string>>): Dict<seq<string>> {
    seq(|d|, i requires 0 <= i < |d| => (d[i].0, SortTexts(d[i].1)))
  }

  /** What a caller should get back: no empty ruleset, tag values sorted. */
  function Normalise(rulesets: seq<Ruleset>): seq<Ruleset> {
    if rulesets == [] then []
    else
      var last := rulesets[|rulesets| - 1];
      Normalise(rulesets[..|rulesets| - 1]) + if IsEmpty(last) then [] else [last.(tags := SortTags(last.tags))]
  }

  ghost predicate IsRuleset(r: Ruleset) {
    IsDict(r.capabilities) && IsDict(r.tags)
  }

  ghost predicate Dotted(r: Ruleset) {
    forall i :: 0 <= i < |r.capabilities| ==> '.' in r.capabilities[i].0
  }

  lemma {:induction false} PutNew<V>(d: Dict<V>, k: string, v: V)
    requires forall i :: 0 <= i < |d| ==> d[i].0 != k
    ensures Put(d, k, v) == d + [(k, v)]
  {
    if d == [] {
    } else {
      PutNew(d[1..], k, v);
      assert d == [d[0]] + d[1..];
    }
  }

  /** A key that is there keeps its place and takes the new value. */
  lemma {:induction false} PutOver<V>(a: Dict<V>, k: string, was: V, b: Dict<V>, v: V)
    requires forall i :: 0 <= i < |a| ==> a[i].0 != k
    ensures Put(a + [(k, was)] + b, k, v) == a + [(k, v)] + b
  {
    var d := a + [(k, was)] + b;
    if a == [] {
      assert d[1..] == b;
    } else {
      PutOver(a[1..], k, was, b, v);
      assert d[1..] == a[1..] + [(k, was)] + b;
      assert a == [a[0]] + a[1..];
    }
  }

  lemma {:induction false} SplitAtFirst(ns: string, id: string)
    requires '.' !in ns
    ensures Before(ns + "." + id) == ns && After(ns + "." + id) == id
  {
    var s := ns + "." + id;
    if ns == "" {
      assert s[1..] == id;
    } else {
      SplitAtFirst(ns[1..], id);
      assert s[1..] == ns[1..] + "." + id;
      assert ns == [ns[0]] + ns[1..];
    }
  }

  lemma {:induction false} UndottedIsBefore(s: string)
    requires '.' !in s
    ensures Before(s) == s && After(s) == ""
  {
    if s != "" {
      UndottedIsBefore(s[1..]);
      assert s == [s[0]] + s[1..];
    }
  }

  /** A category survives, however many marks of negation it starts with. */
  lemma CategorySurvives(category: string)
    ensures (if IsNegated(category) then "!" else "") + Category(category) == category
  {
    if IsNegated(category) {
      assert category == [category[0]] + category[1..];
    }
  }

  /** What the rules of a capability and of a tag category, required or excluded, look like. */
  lemma RulesLookLike(ns: string, id: string, value: PbmValue, category: string, tags: seq<string>)
    requires '.' !in ns && !("!" <= category)
    ensures CapRule(ns + "." + id, value) == Rule(ns, id, [[Property(id, false, value)]])
    ensures '.' !in id ==> CapRule(id, value) == Rule(id, "", [[Property("", false, value)]])
    ensures var property := "com.vmware.storage.tag." + category + ".property";
      && TagRule(category, tags)
         == Rule("https://www.vmware.com/storage/tag", category, [[Property(property, false, Discrete(tags))]])
      && TagRule("!" + category, tags)
         == Rule("https://www.vmware.com/storage/tag", category, [[Property(property, true, Discrete(tags))]])
  {
    hide Before, After;
    SplitAtFirst(ns, id);
    if '.' !in id {
      UndottedIsBefore(id);
    }
    CategorySurvives("!" + category);
    assert ("!" + category)[1..] == category;
    assert TAGS_ID + "." == "com.vmware.storage.tag.";
  }

  /** The first rule that cannot be read decides how reading fails, in the first
      subprofile with such a rule. */
  lemma FirstUnreadable(subs: seq<seq<Rule>>, i: nat, j: nat)
    requires i < |subs| && j < |subs[i]| && !Readable(subs[i][j])
    requires (forall k :: 0 <= k < i ==> AllReadable(subs[k])) && AllReadable(subs[i][..j])
    ensures var rule := subs[i][j];
      Decode(subs) == if rule.constraint == [] || rule.constraint[0] == [] then IndexError else AttributeError
  {
    hide Decode, DecodeRules, AllReadable;
    var rules := subs[i];
    RulesReadIff(rules[..j]);
    assert rules[..j + 1] == rules[..j] + [rules[j]];
    DecodeSnoc(rules[..j], rules[j]);
    DecodeStops(rules, j + 1);
    assert DecodeRules(rules) == DecodeRules(rules[..j + 1]) == ReadRule(DecodeRules(rules[..j]).value, rules[j]);
    ReadsIff(subs[..i]);
    forall sub | sub in subs[..i]
      ensures AllReadable(sub)
    {
    }
    assert subs[..i + 1] == subs[..i] + [subs[i]];
    DecodeSub(subs[..i], rules);
    DecodeAllStops(subs, i + 1);
  }

  /** A capability is never read back as a tag: its namespace has no dot, the tag namespace has. */
  lemma CapabilityIsNoTag(key: string, value: PbmValue)
    ensures CapRule(key, value).ns != TAGS_NS
  {
    assert TAGS_NS[11] == '.';
  }

  lemma CapRuleAt(d: Dict<PbmValue>, i: nat)
    requires i < |d|
    ensures CapRules(d)[i] == CapRule(d[i].0, d[i].1)
  {
  }

  lemma {:induction false} CapabilitiesBack(r: Ruleset, n: nat)
    requires IsRuleset(r) && Dotted(r) && n <= |r.capabilities|
    ensures DecodeRules(CapRules(r.capabilities)[..n]) == Read(Ruleset(r.capabilities[..n], []))
  {
    hide DecodeRules, Before, After, CapRules, Put;
    DecodeNothing();
    if n == 0 {
    } else {
      CapabilitiesBack(r, n - 1);
      var (key, value) := r.capabilities[n - 1];
      CapabilityIsNoTag(key, value);
      SplitAtDot(key);
      PutNew(r.capabilities[..n - 1], key, value);
      var rules := CapRules(r.capabilities)[..n];
      assert rules[..n - 1] == CapRules(r.capabilities)[..n - 1];
      CapRuleAt(r.capabilities, n - 1);
      assert Before(key) + "." + After(key) == key;
      assert r.capabilities[..n] == r.capabilities[..n - 1] + [(key, value)];
      assert rules == rules[..n - 1] + [CapRule(key, value)];
      DecodeSnoc(rules[..n - 1], CapRule(key, value));
    }
  }

  /** Reading the rule of tag `n` after those before it. */
  lemma ReadTag(r: Ruleset, n: nat)
    requires IsRuleset(r) && n < |r.tags|
    ensures ReadRule(Ruleset(r.capabilities, SortTags(r.tags[..n])), TagRule(r.tags[n].0, r.tags[n].1))
      == Read(Ruleset(r.capabilities, SortTags(r.tags[..n + 1])))
  {
    var (category, values) := r.tags[n];
    CategorySurvives(category);
    PutNew(SortTags(r.tags[..n]), category, SortTexts(values));
    assert SortTags(r.tags[..n + 1]) == SortTags(r.tags[..n]) + [(category, SortTexts(values))];
  }

  lemma {:induction false} TagsBack(r: Ruleset, n: nat)
    requires IsRuleset(r) && Dotted(r) && n <= |r.tags|
    ensures DecodeRules(CapRules(r.capabilities) + TagRules(r.tags)[..n]) ==
      Read(Ruleset(r.capabilities, SortTags(r.tags[..n])))
  {
    hide DecodeRules, ReadRule;
    var caps, tags := CapRules(r.capabilities), TagRules(r.tags);
    if n == 0 {
      CapabilitiesBack(r, |r.capabilities|);
      assert caps + tags[..0] == caps[..|r.capabilities|];
      assert r.capabilities[..|r.capabilities|] == r.capabilities;
      assert SortTags(r.tags[..0]) == [];
    } else {
      TagsBack(r, n - 1);
      ReadTag(r, n - 1);
      DecodeSnoc(caps + tags[..n - 1], tags[n - 1]);
      assert caps + tags[..n] == caps + tags[..n - 1] + [tags[n - 1]];
    }
  }

  lemma RulesetBack(r: Ruleset)
    requires IsRuleset(r) && Dotted(r)
    ensures DecodeRules(Rules(r)) == Read(r.(tags := SortTags(r.tags)))
  {
    TagsBack(r, |r.tags|);
    assert TagRules(r.tags)[..|r.tags|] == TagRules(r.tags);
    assert r.tags[..|r.tags|] == r.tags;
  }

  lemma {:induction false} PutKeys<V>(d: Dict<V>, k: string, v: V, i: nat)
    requires i < |Put(d, k, v)|
    ensures Put(d, k, v)[i].0 == k || exists j :: 0 <= j < |d| && Put(d, k, v)[i].0 == d[j].0
  {
    if d != [] && i > 0 {
      if d[0].0 == k {
        assert Put(d, k, v)[i] == d[i];
      } else {
        PutKeys(d[1..], k, v, i - 1);
        assert Put(d, k, v)[i] == Put(d[1..], k, v)[i - 1];
      }
    } else if d != [] {
      assert Put(d, k, v)[0].0 == d[0].0;
    }
  }

  /** Every capability that is read back has a dot in its key. */
  lemma {:induction false} DecodedIsDotted(rules: seq<Rule>)
    ensures DecodeRules(rules).Read? ==> Dotted(DecodeRules(rules).value)
  {
    if rules == [] {
    } else {
      DecodedIsDotted(rules[..|rules| - 1]);
      var front, rule := DecodeRules(rules[..|rules| - 1]), rules[|rules| - 1];
      if DecodeRules(rules).Read? && rule.ns != TAGS_NS {
        var value := rule.constraint[0][0].value;
        var key := rule.ns + "." + rule.id;
        assert key[|rule.ns|] == '.';
        forall i | 0 <= i < |Put(front.value.capabilities, key, value)| {
          PutKeys(front.value.capabilities, key, value, i);
        }
        assert DecodeRules(rules) == Read(front.value.(capabilities := Put(front.value.capabilities, key, value)));
      }
    }
  }

  /** One ruleset is read back, its tag values sorted, exactly when its keys have dots. */
  lemma RulesetBackIff(r: Ruleset)
    requires IsRuleset(r)
    ensures DecodeRules(Rules(r)) == Read(r.(tags := SortTags(r.tags))) <==> Dotted(r)
  {
    hide DecodeRules, Rules, SortTags, IsRuleset;
    DecodedIsDotted(Rules(r));
    if Dotted(r) {
      RulesetBack(r);
    } else {
      assert !Dotted(r.(tags := SortTags(r.tags)));
    }
  }

  lemma LastOf<T>(a: seq<T>, x: T, b: seq<T>, y: T)
    requires a + [x] == b + [y]
    ensures a == b && x == y
  {
    assert (a + [x])[|a|] == x && (b + [y])[|b|] == y;
    assert (a + [x])[..|a|] == a && (b + [y])[..|b|] == b;
  }

  lemma DecodeLast(subs: seq<seq<Rule>>, sub: seq<Rule>, front: seq<Ruleset>, r: Ruleset)
    ensures Decode(subs + [sub]) == Read(front + [r]) <==> Decode(subs) == Read(front) && DecodeRules(sub) == Read(r)
  {
    hide Decode, DecodeRules;
    DecodeSub(subs, sub);
    if Decode(subs + [sub]) == Read(front + [r]) {
      LastOf(Decode(subs).value, DecodeRules(sub).value, front, r);
    }
  }

  lemma EmptyIsDotted(r: Ruleset)
    requires IsEmpty(r)
    ensures Dotted(r)
  {
  }

  /** Decoding what was encoded gives the original back, with empty rulesets
      dropped and tag values sorted, exactly when every capability key has a dot. */
  lemma {:induction false} RoundTrip(rulesets: seq<Ruleset>)
    requires forall r :: r in rulesets ==> IsRuleset(r)
    ensures Decode(Encode(rulesets)) == Read(Normalise(rulesets)) <==> forall r :: r in rulesets ==> Dotted(r)
  {
    hide Decode, DecodeRules, Rules, SortTags, IsRuleset, Dotted;
    DecodeNothing();
    if rulesets == [] {
    } else {
      var front, last := rulesets[..|rulesets| - 1], rulesets[|rulesets| - 1];
      assert rulesets == front + [last];
      RoundTrip(front);
      RulesetBackIff(last);
      if IsEmpty(last) {
        EmptyIsDotted(last);
        assert Encode(rulesets) == Encode(front) && Normalise(rulesets) == Normalise(front);
      } else {
        DecodeLast(Encode(front), Rules(last), Normalise(front), last.(tags := SortTags(last.tags)));
      }
    }
  }

  /** A capability key without a dot comes back with one. */
  lemma UndottedKeyIsLost() returns (r: Ruleset)
    ensures IsRuleset(r) && Decode(Encode([r])) != Read(Normalise([r]))
  {
    hide Decode, Encode, Normalise;
    r := Ruleset([("encryption", Scalar(1))], []);
    assert !Dotted(r) by {
      assert r.capabilities[0].0 == "encryption";
    }
    RoundTrip([r]);
    assert r in [r];
  }

  // ----- the meaning of a policy -----

  /** What a datastore offers: which capability values it satisfies and which tag sets it carries. */
  datatype Datastore = Datastore(offers: (string, string, PbmValue) -> bool, tagged: (string, multiset<string>) -> bool)

  /** Capabilities and tags within a ruleset are all required. */
  ghost predicate MeetsRuleset(ds: Datastore, r: Ruleset) {
    && (forall i :: 0 <= i < |r.capabilities| ==>
          ds.offers(Before(r.capabilities[i].0), After(r.capabilities[i].0), r.capabilities[i].1))
    && (forall i :: 0 <= i < |r.tags| ==>
          ds.tagged(Category(r.tags[i].0), multiset(r.tags[i].1)) != IsNegated(r.tags[i].0))
  }

  /** Rulesets are alternatives. */
  ghost predicate MeetsAny(ds: Datastore, rulesets: seq<Ruleset>) {
    exists r :: r in rulesets && MeetsRuleset(ds, r)
  }

  ghost predicate MeetsProperty(ds: Datastore, ns: string, id: string, p: Property) {
    if ns == TAGS_NS && p.value.Discrete? then ds.tagged(id, multiset(p.value.values)) != p.negated
    else ds.offers(ns, id, p.value)
  }

  /** One of the constraints is met, with all its properties. */
  ghost predicate MeetsRule(ds: Datastore, rule: Rule) {
    exists c :: c in rule.constraint && forall p :: p in c ==> MeetsProperty(ds, rule.ns, rule.id, p)
  }

  lemma MeetsSingle(ds: Datastore, rule: Rule, p: Property)
    requires rule.constraint == [[p]]
    ensures MeetsRule(ds, rule) <==> MeetsProperty(ds, rule.ns, rule.id, p)
  {
    assert [p] in rule.constraint && p in [p];
  }

  ghost predicate MeetsSubprofile(ds: Datastore, sub: seq<Rule>) {
    forall i :: 0 <= i < |sub| ==> MeetsRule(ds, sub[i])
  }

  ghost predicate MeetsPolicy(ds: Datastore, subs: seq<seq<Rule>>) {
    exists sub :: sub in subs && MeetsSubprofile(ds, sub)
  }

  lemma SameMeaning(ds: Datastore, r: Ruleset)
    ensures MeetsSubprofile(ds, Rules(r)) <==> MeetsRuleset(ds, r)
  {
    var c, t, rules := r.capabilities, r.tags, Rules(r);
    forall i | 0 <= i < |c|
      ensures MeetsRule(ds, rules[i]) <==> ds.offers(Before(c[i].0), After(c[i].0), c[i].1)
    {
      CapabilityIsNoTag(c[i].0, c[i].1);
      MeetsSingle(ds, rules[i], rules[i].constraint[0][0]);
    }
    forall i | 0 <= i < |t|
      ensures MeetsRule(ds, rules[|c| + i]) <==> ds.tagged(Category(t[i].0), multiset(t[i].1)) != IsNegated(t[i].0)
    {
      assert rules[|c| + i] == TagRule(t[i].0, t[i].1);
      MeetsSingle(ds, rules[|c| + i], rules[|c| + i].constraint[0][0]);
    }
    if MeetsRuleset(ds, r) {
      forall i | 0 <= i < |rules|
        ensures MeetsRule(ds, rules[i])
      {
        assert i >= |c| ==> rules[i] == rules[|c| + (i - |c|)];
      }
    }
  }

  /** The encoding is met by exactly the datastores that meet a ruleset with a rule in it. */
  lemma {:induction false} EncodingMeans(ds: Datastore, rulesets: seq<Ruleset>)
    ensures MeetsPolicy(ds, Encode(rulesets)) <==> exists r :: r in rulesets && !IsEmpty(r) && MeetsRuleset(ds, r)
  {
    if rulesets == [] {
    } else {
      var front, last := rulesets[..|rulesets| - 1], rulesets[|rulesets| - 1];
      assert rulesets == front + [last];
      EncodingMeans(ds, front);
      SameMeaning(ds, last);
      if !IsEmpty(last) {
        assert Rules(last) in Encode(rulesets);
      }
      forall sub | sub in Encode(front)
        ensures sub in Encode(rulesets)
      {
      }
    }
  }

  /** The policy keeps the meaning of its rulesets for a datastore exactly when
      no ruleset is empty, or one that is not is met: an empty ruleset accepts
      every datastore and is lost. */
  lemma MeaningKept(ds: Datastore, rulesets: seq<Ruleset>)
    ensures (MeetsPolicy(ds, Encode(rulesets)) <==> MeetsAny(ds, rulesets))
      <==> ((forall r :: r in rulesets ==> !IsEmpty(r))
            || exists r :: r in rulesets && !IsEmpty(r) && MeetsRuleset(ds, r))
  {
    EncodingMeans(ds, rulesets);
    if r :| r in rulesets && IsEmpty(r) {
      assert MeetsRuleset(ds, r);
    }
  }

  /** A lone empty ruleset accepts every datastore, and its policy none. */
  lemma EmptyRulesetIsLost(ds: Datastore)
    ensures MeetsAny(ds, [Ruleset([], [])]) && !MeetsPolicy(ds, Encode([Ruleset([], [])]))
  {
    var r := Ruleset([], []);
    assert r in [r] && MeetsRuleset(ds, r);
    MeaningKept(ds, [r]);
  }
}
