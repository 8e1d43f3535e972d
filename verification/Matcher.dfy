/** NewMatcher, Match and MatcherBuilder (common/domain/matcher.go, common/domain/builder.go) on
    ASCII names. */
module Matcher {
  import opened Words
  import opened Bytes
  import opened Trie
  import opened SuccinctSet
  import opened Lookup
  import opened Rules
  import opened Sorting

  ghost predicate IsAscii(s: bytes) {
    forall i :: 0 <= i < |s| ==> s[i] < 128
  }

  function LowerByte(b: byte): byte {
    if 65 <= b <= 90 then b + 32 else b
  }

  /** strings.ToLower on ASCII. */
  function ToLower(s: bytes): (r: bytes)
    ensures |r| == |s|
    ensures forall i :: 0 <= i < |s| ==> r[i] == if 65 <= s[i] <= 90 then s[i] + 32 else s[i]
  {
    seq(|s|, i requires 0 <= i < |s| => LowerByte(s[i]))
  }

  // ---------------------------------------------------------------- matcher.go:44-77

  /** reverseDomain: bytes are placed from the back of the buffer. */
  method ReverseDomain(domain: bytes) returns (r: bytes)
    requires IsAscii(domain)
    ensures r == Reverse(domain)
  {
    var l := |domain|;
    var b := new byte[l];
    var i := 0;
    while i < l
      invariant 0 <= i <= l
      invariant forall k :: l - i <= k < l ==> b[k] == domain[l - 1 - k]
    {
      i := i + 1;
      b[l - i] := domain[i - 1];
    }
    r := b[..];
  }

  /** reverseDomainSuffix and reverseDomainRoot, which differ in the marker. */
  method ReverseDomainMarked(domain: bytes, marker: byte) returns (r: bytes)
    requires IsAscii(domain)
    ensures r == Reverse(domain) + [marker]
  {
    var l := |domain|;
    var b := new byte[l + 1];
    var i := 0;
    while i < l
      invariant 0 <= i <= l
      invariant forall k :: l - i <= k < l ==> b[k] == domain[l - 1 - k]
    {
      i := i + 1;
      b[l - i] := domain[i - 1];
    }
    b[l] := marker;
    assert b[..l] == Reverse(domain);
    r := b[..];
  }

  // ---------------------------------------------------------------- which role counts

  ghost predicate Named(rules: seq<Rule>, name: bytes) {
    exists i :: 0 <= i < |rules| && rules[i].name == name
  }

  /** Of the rules added in this order, those whose name was not yet taken. */
  ghost function FirstRoles(rules: seq<Rule>): seq<Rule> {
    if rules == [] then []
    else
      var kept := FirstRoles(rules[..|rules| - 1]);
      var last := rules[|rules| - 1];
      if Named(kept, last.name) then kept else kept + [last]
  }

  lemma FirstRolesSnoc(rules: seq<Rule>, r: Rule)
    ensures FirstRoles(rules + [r]) ==
            if Named(FirstRoles(rules), r.name) then FirstRoles(rules) else FirstRoles(rules) + [r]
  {
    assert (rules + [r])[..|rules|] == rules;
  }

  /** Rule i is the first of its name. */
  ghost predicate FirstNamed(rules: seq<Rule>, i: int) {
    0 <= i < |rules| && forall j :: 0 <= j < i ==> rules[j].name != rules[i].name
  }

  lemma {:induction false} FirstOf(rules: seq<Rule>, i: nat) returns (j: nat)
    requires i < |rules|
    ensures j <= i && FirstNamed(rules, j) && rules[j].name == rules[i].name
    decreases i
  {
    if k :| 0 <= k < i && rules[k].name == rules[i].name {
      j := FirstOf(rules, k);
    } else {
      j := i;
    }
  }

  /** The rules kept are exactly the first of each name. */
  lemma {:induction false} FirstRolesExactly(rules: seq<Rule>, r: Rule)
    ensures r in FirstRoles(rules) <==> exists i :: FirstNamed(rules, i) && rules[i] == r
    decreases |rules|
  {
    if rules != [] {
      var front, last := rules[..|rules| - 1], rules[|rules| - 1];
      FirstRolesExactly(front, r);
      LastIsKept(rules);
      assert rules == front + [last];
      FirstRolesSnoc(front, last);
      FirstNamedSnoc(front, last, r);
      hide FirstRoles, Named, FirstNamed;
    }
  }

  lemma FirstNamedSnoc(front: seq<Rule>, last: Rule, r: Rule)
    ensures var rules := front + [last];
            (exists i :: FirstNamed(rules, i) && rules[i] == r) <==>
            (exists i :: FirstNamed(front, i) && front[i] == r) || (FirstNamed(rules, |front|) && last == r)
  {
    var rules := front + [last];
    forall i | 0 <= i < |front|
      ensures FirstNamed(front, i) <==> FirstNamed(rules, i)
    {
      assert forall j :: 0 <= j < |front| ==> rules[j] == front[j];
    }
    if i :| FirstNamed(rules, i) && rules[i] == r {
      assert i < |front| ==> FirstNamed(front, i) && front[i] == r;
    }
    if i :| FirstNamed(front, i) && front[i] == r {
      assert FirstNamed(rules, i) && rules[i] == r;
    }
    assert rules[|front|] == last;
  }

  /** The last rule is kept exactly when it is the first of its name. */
  lemma LastIsKept(rules: seq<Rule>)
    requires rules != []
    ensures var front, last := rules[..|rules| - 1], rules[|rules| - 1];
            Named(FirstRoles(front), last.name) <==> !FirstNamed(rules, |rules| - 1)
    decreases |rules|, 0
  {
    hide FirstRoles;
    var front, last := rules[..|rules| - 1], rules[|rules| - 1];
    var kept := FirstRoles(front);
    if Named(kept, last.name) {
      var x :| 0 <= x < |kept| && kept[x].name == last.name;
      FirstRolesExactly(front, kept[x]);
      assert kept[x] in kept;
      var i :| FirstNamed(front, i) && front[i] == kept[x];
      assert rules[i].name == last.name;
    }
    if !FirstNamed(rules, |rules| - 1) {
      var j :| 0 <= j < |front| && rules[j].name == last.name;
      var i := FirstOf(front, j);
      FirstRolesExactly(front, front[i]);
      assert FirstNamed(front, i) && front[i] in kept;
      var x :| 0 <= x < |kept| && kept[x] == front[i];
    }
  }

  /** Every rule kept was added, and every name added is kept. */
  lemma FirstRolesAre(rules: seq<Rule>)
    ensures forall i :: 0 <= i < |FirstRoles(rules)| ==> FirstRoles(rules)[i] in rules
    ensures forall r :: r in rules ==> Named(FirstRoles(rules), r.name)
    ensures GoodRules(rules) ==> GoodRules(FirstRoles(rules))
  {
    hide FirstRoles;
    var kept := FirstRoles(rules);
    forall i | 0 <= i < |kept|
      ensures kept[i] in rules
    {
      FirstRolesExactly(rules, kept[i]);
    }
    forall r | r in rules
      ensures Named(kept, r.name)
    {
      var i :| 0 <= i < |rules| && rules[i] == r;
      var j := FirstOf(rules, i);
      FirstRolesExactly(rules, rules[j]);
      var x :| 0 <= x < |kept| && kept[x] == rules[j];
    }
  }

  /** A query is accepted by the rules kept exactly when the first rule of some name accepts it. */
  lemma AcceptedByFirst(rules: seq<Rule>, k: bytes)
    requires GoodRules(rules)
    ensures GoodRules(FirstRoles(rules))
    ensures AcceptedBy(FirstRoles(rules), k) <==> exists i :: FirstNamed(rules, i) && Accepts(rules[i], k)
    ensures StrayIn(FirstRoles(rules), k) <==> exists i :: FirstNamed(rules, i) && Stray(rules[i], k)
  {
    hide FirstRoles, Accepts, Stray;
    var kept := FirstRoles(rules);
    FirstRolesAre(rules);
    forall i | 0 <= i < |kept|
      ensures exists j :: FirstNamed(rules, j) && rules[j] == kept[i]
    {
      FirstRolesExactly(rules, kept[i]);
      assert kept[i] in kept;
    }
    forall j | FirstNamed(rules, j)
      ensures exists i :: 0 <= i < |kept| && kept[i] == rules[j]
    {
      FirstRolesExactly(rules, rules[j]);
      assert rules[j] in kept;
    }
  }

  // ---------------------------------------------------------------- building and matching

  /** list holds the keys of the rules kept, each once. */
  ghost predicate IsKeyList(list: seq<bytes>, rules: seq<Rule>) {
    GoodRules(rules) && AreKeys(list, rules) && Distinct(list)
  }

  /** m is a set packed from the keys of rules. */
  ghost predicate IsMatcher(m: SuccinctSet, rules: seq<Rule>) {
    GoodRules(rules) && exists keys :: Encodes(m, keys) && Increasing(keys) && AreKeys(keys, rules)
  }

  lemma NoKeys()
    ensures IsKeyList([], [])
  {
  }

  /** A rule with a new name adds a new key. */
  lemma AddKey(list: seq<bytes>, rules: seq<Rule>, r: Rule)
    requires IsKeyList(list, rules) && GoodRule(r) && !Named(rules, r.name)
    ensures IsKeyList(list + [KeyOf(r)], rules + [r])
  {
    var list', rules' := list + [KeyOf(r)], rules + [r];
    forall i | 0 <= i < |list|
      ensures list[i] != KeyOf(r)
    {
      assert list[i] in list;
      var j :| 0 <= j < |rules| && list[i] == KeyOf(rules[j]);
      if list[i] == KeyOf(r) {
        KeyOfInjective(rules[j], r);
      }
    }
    forall x | x in list'
      ensures exists i :: 0 <= i < |rules'| && x == KeyOf(rules'[i])
    {
      if x in list {
        var j :| 0 <= j < |rules| && x == KeyOf(rules[j]);
        assert x == KeyOf(rules'[j]);
      } else {
        assert x == KeyOf(rules'[|rules|]);
      }
    }
    forall i | 0 <= i < |rules'|
      ensures KeyOf(rules'[i]) in list'
    {
      if i < |rules| {
        assert KeyOf(rules[i]) in list;
      } else {
        assert list'[|list|] == KeyOf(r);
      }
    }
  }

  lemma SortedKeyList(list: seq<bytes>, rules: seq<Rule>)
    requires IsKeyList(list, rules)
    ensures IsKeyList(Sorted(list), rules) && Increasing(Sorted(list))
    ensures TotalLength(Sorted(list)) == SumLength(list)
  {
    SortedKeeps(list);
    IncreasingIsDistinct(Sorted(list));
    TotalIsSum(Sorted(list));
  }

  /** Match, matcher.go:40-42: exactly the rules' promise, and the stray newline. */
  method Match(t: Tables, m: SuccinctSet, domain: bytes, ghost rules: seq<Rule>) returns (found: bool)
    requires IsTables(t) && IsMatcher(m, rules) && IsAscii(domain)
    ensures found <==> AcceptedBy(rules, ToLower(domain)) || StrayIn(rules, ToLower(domain))
  {
    ghost var keys :| Encodes(m, keys) && Increasing(keys) && AreKeys(keys, rules);
    KeysAreWellFormed(keys, rules);
    var key := ReverseDomain(ToLower(domain));
    found := Has(t, m, key, keys);
    KeysAnswerRules(keys, rules, ToLower(domain));
  }

  // ---------------------------------------------------------------- NewMatcher

  /** Host names as rules are written: ASCII, every byte above the markers. */
  ghost predicate IsName(s: bytes) {
    forall i :: 0 <= i < |s| ==> 13 < s[i] < 128
  }

  /** The key of a suffix, by its first byte (matcher.go:22-26, builder.go:22-26). */
  method SuffixKey(domain: bytes) returns (key: bytes)
    requires IsAscii(domain) && domain != []
    ensures key == KeyOf(Suffix(domain))
  {
    if domain[0] == DOT {
      key := ReverseDomainMarked(domain, PREFIX_LABEL);
    } else {
      key := ReverseDomainMarked(domain, ROOT_LABEL);
    }
  }

  /** The rules NewMatcher adds, in its order: suffixes first, all in lower case. */
  ghost function Calls(domains: seq<bytes>, suffixes: seq<bytes>): seq<Rule> {
    seq(|suffixes|, i requires 0 <= i < |suffixes| => Suffix(ToLower(suffixes[i])))
    + seq(|domains|, i requires 0 <= i < |domains| => Domain(ToLower(domains[i])))
  }

  /** The bytes the keys of rules take. */
  ghost function Cost(rules: seq<Rule>): nat {
    if rules == [] then 0
    else
      var r := rules[|rules| - 1];
      Cost(rules[..|rules| - 1]) + |r.name| + (if r.Suffix? then 1 else 0)
  }

  /** The bookkeeping both builders keep while adding rules. */
  ghost predicate IsBuilding(seen: map<bytes, bool>, domainList: seq<bytes>, calls: seq<Rule>) {
    && GoodRules(calls)
    && IsKeyList(domainList, FirstRoles(calls))
    && (forall x :: x in seen && seen[x] <==> Named(FirstRoles(calls), x))
    && SumLength(domainList) <= Cost(calls)
    && (calls != [] ==> domainList != [])
  }

  lemma NothingAdded()
    ensures IsBuilding(map[], [], [])
  {
    NoKeys();
  }

  /** Adding a rule: skipped when its name is taken, else its key goes on the list. */
  lemma AddRule(seen: map<bytes, bool>, domainList: seq<bytes>, calls: seq<Rule>, r: Rule)
    requires IsBuilding(seen, domainList, calls) && GoodRule(r)
    ensures if r.name in seen && seen[r.name] then IsBuilding(seen, domainList, calls + [r])
            else IsBuilding(seen[r.name := true], domainList + [KeyOf(r)], calls + [r])
  {
    hide IsKeyList;
    var kept := FirstRoles(calls);
    FirstRolesSnoc(calls, r);
    assert (calls + [r])[..|calls|] == calls;
    if r.name in seen && seen[r.name] {
      TakenMeansSome(domainList, kept, r.name);
    } else {
      AddKey(domainList, kept, r);
      SumLengthSnoc(domainList, KeyOf(r));
      var seen', kept' := seen[r.name := true], kept + [r];
      forall x
        ensures x in seen' && seen'[x] <==> Named(kept', x)
      {
        NamedSnoc(kept, r, x);
      }
    }
  }

  lemma NamedSnoc(rules: seq<Rule>, r: Rule, x: bytes)
    ensures Named(rules + [r], x) <==> Named(rules, x) || x == r.name
  {
    if Named(rules, x) {
      var i :| 0 <= i < |rules| && rules[i].name == x;
      assert (rules + [r])[i].name == x;
    }
    assert (rules + [r])[|rules|] == r;
  }

  lemma TakenMeansSome(list: seq<bytes>, rules: seq<Rule>, name: bytes)
    requires IsKeyList(list, rules) && Named(rules, name)
    ensures list != []
  {
  }

  /** Sorting and packing the keys of the rules kept. */
  lemma Packable(domainList: seq<bytes>, calls: seq<Rule>, seen: map<bytes, bool>)
    requires IsBuilding(seen, domainList, calls)
    ensures Increasing(Sorted(domainList)) && |Sorted(domainList)| == |domainList|
    ensures TotalLength(Sorted(domainList)) <= Cost(calls)
    ensures GoodRules(FirstRoles(calls)) && AreKeys(Sorted(domainList), FirstRoles(calls))
    ensures IsBuilding(seen, Sorted(domainList), calls)
  {
    SortedKeyList(domainList, FirstRoles(calls));
    SortedKeeps(domainList);
  }

  /** NewMatcher, matcher.go:13-38. */
  method NewMatcher(domains: seq<bytes>, domainSuffix: seq<bytes>) returns (m: SuccinctSet)
    requires domains != [] || domainSuffix != []
    requires forall i :: 0 <= i < |domains| ==> IsName(domains[i])
    requires forall i :: 0 <= i < |domainSuffix| ==> IsName(domainSuffix[i]) && domainSuffix[i] != []
    requires 2 * Cost(Calls(domains, domainSuffix)) + 65 <= INT32_LIMIT
    ensures IsMatcher(m, FirstRoles(Calls(domains, domainSuffix)))
  {
    hide IsBuilding, GoodRule, FirstRoles, Encodes, AreKeys, Increasing;
    ghost var calls := Calls(domains, domainSuffix);
    var domainList: seq<bytes> := [];
    var seen: map<bytes, bool> := map[];
    NothingAdded();
    assert calls[..0] == [];
    for i := 0 to |domainSuffix|
      invariant IsBuilding(seen, domainList, calls[..i])
    {
      var domain := ToLower(domainSuffix[i]);
      LowerIsName(domainSuffix[i]);
      assert calls[..i + 1] == calls[..i] + [Suffix(domain)];
      AddRule(seen, domainList, calls[..i], Suffix(domain));
      if domain in seen && seen[domain] {
        continue;
      }
      seen := seen[domain := true];
      var key := SuffixKey(domain);
      domainList := domainList + [key];
    }
    for i := 0 to |domains|
      invariant IsBuilding(seen, domainList, calls[..|domainSuffix| + i])
    {
      var domain := ToLower(domains[i]);
      LowerIsName(domains[i]);
      assert calls[..|domainSuffix| + i + 1] == calls[..|domainSuffix| + i] + [Domain(domain)];
      AddRule(seen, domainList, calls[..|domainSuffix| + i], Domain(domain));
      if domain in seen && seen[domain] {
        continue;
      }
      seen := seen[domain := true];
      var key := ReverseDomain(domain);
      domainList := domainList + [key];
    }
    assert calls[..|domainSuffix| + |domains|] == calls;
    m := Pack(domainList, seen, calls);
  }

  /** sort.Strings and newSuccinctSet, the last two steps of both builders. */
  method Pack(domainList: seq<bytes>, ghost seen: map<bytes, bool>, ghost calls: seq<Rule>) returns (m: SuccinctSet)
    requires calls != [] && IsBuilding(seen, domainList, calls)
    requires 2 * Cost(calls) + 65 <= INT32_LIMIT
    ensures IsMatcher(m, FirstRoles(calls))
  {
    hide Encodes, Increasing, AreKeys;
    Packable(domainList, calls, seen);
    m := NewSuccinctSet(Sorted(domainList));
  }

  lemma LowerIsName(s: bytes)
    requires IsName(s)
    ensures IsAscii(ToLower(s))
    ensures GoodRule(Domain(ToLower(s)))
    ensures s != [] ==> GoodRule(Suffix(ToLower(s)))
  {
  }

  // ---------------------------------------------------------------- what NewMatcher promises

  /** The same name but for the case of letters: A to Z are 65 to 90, a to z 97 to 122. */
  ghost predicate SameButCase(a: bytes, b: bytes) {
    && |a| == |b|
    && forall i :: 0 <= i < |a| ==>
                     || a[i] == b[i]
                     || (65 <= a[i] <= 90 && b[i] == a[i] + 32)
                     || (65 <= b[i] <= 90 && a[i] == b[i] + 32)
  }

  /** q ends in t, but for case. */
  ghost predicate EndsSame(q: bytes, t: bytes) {
    |t| <= |q| && SameButCase(q[|q| - |t|..], t)
  }

  /** What a caller of NewMatcher reads into its arguments. */
  ghost predicate Promised(domains: seq<bytes>, suffixes: seq<bytes>, q: bytes)
    requires forall i :: 0 <= i < |suffixes| ==> suffixes[i] != []
  {
    || (exists i :: 0 <= i < |domains| && SameButCase(q, domains[i]))
    || (exists i :: 0 <= i < |suffixes| && SuffixNames(suffixes[i], q))
  }

  /** q ends in s, which starts with a dot (46); or q is s or ends in a dot and s. */
  ghost predicate SuffixNames(s: bytes, q: bytes)
    requires s != []
  {
    if s[0] == 46 then EndsSame(q, s) else SameButCase(q, s) || EndsSame(q, [46] + s)
  }

  lemma SameIsLower(a: bytes, b: bytes)
    ensures SameButCase(a, b) <==> ToLower(a) == ToLower(b)
  {
    var x, y := ToLower(a), ToLower(b);
    if x == y {
      forall i | 0 <= i < |a|
        ensures a[i] == b[i] || (65 <= a[i] <= 90 && b[i] == a[i] + 32) || (65 <= b[i] <= 90 && a[i] == b[i] + 32)
      {
        assert x[i] == y[i];
      }
    }
  }

  lemma EndsSameIsLower(q: bytes, t: bytes)
    ensures EndsSame(q, t) <==> EndsWith(ToLower(q), ToLower(t))
  {
    if |t| <= |q| {
      var tail := q[|q| - |t|..];
      SameIsLower(tail, t);
      assert ToLower(tail) == ToLower(q)[|q| - |t|..];
    }
  }

  /** Rules in lower case answer queries in lower case as their names would but for case. */
  lemma LowerAnswers(n: bytes, q: bytes)
    ensures Accepts(Domain(ToLower(n)), ToLower(q)) <==> SameButCase(q, n)
    ensures n != [] ==> (Accepts(Suffix(ToLower(n)), ToLower(q)) <==> SuffixNames(n, q))
  {
    hide SameButCase, EndsSame, EndsWith;
    SameIsLower(q, n);
    EndsSameIsLower(q, n);
    EndsSameIsLower(q, [46] + n);
    assert ToLower([46] + n) == [46] + ToLower(n);
    if n != [] {
      DotKept(n);
    }
  }

  /** A promised query is answered by a rule kept. */
  lemma PromisedIsKept(domains: seq<bytes>, suffixes: seq<bytes>, q: bytes)
    requires forall i :: 0 <= i < |suffixes| ==> suffixes[i] != []
    requires GoodRules(FirstRoles(Calls(domains, suffixes)))
    requires Promised(domains, suffixes, q)
    ensures AcceptedBy(FirstRoles(Calls(domains, suffixes)), ToLower(q))
  {
    hide FirstRoles, GoodRule, ToLower, EndsWith, Accepts, SuffixNames, SameButCase;
    var calls, k := Calls(domains, suffixes), ToLower(q);
    var kept := FirstRoles(calls);
    FirstRolesAre(calls);
    KeptSuffixes(domains, suffixes);
    if i :| 0 <= i < |suffixes| && SuffixNames(suffixes[i], q) {
      var j :| 0 <= j < |kept| && kept[j] == Suffix(ToLower(suffixes[i]));
      LowerAnswers(suffixes[i], q);
      assert Accepts(kept[j], k);
    } else {
      var i :| 0 <= i < |domains| && SameButCase(q, domains[i]);
      SameIsLower(q, domains[i]);
      assert calls[|suffixes| + i] == Domain(k);
      assert Named(kept, k);
      var j :| 0 <= j < |kept| && kept[j].name == k;
      assert GoodRule(kept[j]);
      NamesItself(kept[j]);
    }
  }

  lemma EndsWithItself(k: bytes)
    ensures EndsWith(k, k)
  {
  }

  lemma NamesItself(r: Rule)
    requires GoodRule(r)
    ensures Accepts(r, r.name)
  {
    EndsWithItself(r.name);
  }

  /** A rule kept answers only promised queries. */
  lemma KeptIsPromised(domains: seq<bytes>, suffixes: seq<bytes>, q: bytes)
    requires forall i :: 0 <= i < |suffixes| ==> suffixes[i] != []
    requires GoodRules(FirstRoles(Calls(domains, suffixes)))
    requires AcceptedBy(FirstRoles(Calls(domains, suffixes)), ToLower(q))
    ensures Promised(domains, suffixes, q)
  {
    hide FirstRoles, GoodRule, ToLower, EndsWith;
    var calls, k := Calls(domains, suffixes), ToLower(q);
    var kept := FirstRoles(calls);
    FirstRolesAre(calls);
    var j :| 0 <= j < |kept| && Accepts(kept[j], k);
    assert kept[j] in calls;
    var i :| 0 <= i < |calls| && calls[i] == kept[j];
    CallIsPromised(domains, suffixes, q, i);
  }

  lemma CallIsPromised(domains: seq<bytes>, suffixes: seq<bytes>, q: bytes, i: nat)
    requires forall i :: 0 <= i < |suffixes| ==> suffixes[i] != []
    requires i < |Calls(domains, suffixes)| && Accepts(Calls(domains, suffixes)[i], ToLower(q))
    ensures Promised(domains, suffixes, q)
  {
    hide ToLower, Accepts, SuffixNames, SameButCase;
    if i < |suffixes| {
      LowerAnswers(suffixes[i], q);
      assert SuffixNames(suffixes[i], q);
    } else {
      LowerAnswers(domains[i - |suffixes|], q);
      assert SameButCase(q, domains[i - |suffixes|]);
    }
  }

  /** Dropping the later of two rules of one name loses nothing when suffixes come first. */
  lemma NewMatcherMeaning(domains: seq<bytes>, suffixes: seq<bytes>, q: bytes)
    requires forall i :: 0 <= i < |domains| ==> IsName(domains[i])
    requires forall i :: 0 <= i < |suffixes| ==> IsName(suffixes[i]) && suffixes[i] != []
    ensures GoodRules(FirstRoles(Calls(domains, suffixes)))
    ensures AcceptedBy(FirstRoles(Calls(domains, suffixes)), ToLower(q)) <==> Promised(domains, suffixes, q)
  {
    hide FirstRoles, GoodRule, ToLower, EndsWith, AcceptedBy, Promised, Calls;
    GoodCalls(domains, suffixes);
    FirstRolesAre(Calls(domains, suffixes));
    if Promised(domains, suffixes, q) {
      PromisedIsKept(domains, suffixes, q);
    }
    if AcceptedBy(FirstRoles(Calls(domains, suffixes)), ToLower(q)) {
      KeptIsPromised(domains, suffixes, q);
    }
  }

  lemma DotKept(s: bytes)
    requires s != []
    ensures ToLower(s)[0] == DOT <==> s[0] == DOT
  {
  }

  lemma GoodCalls(domains: seq<bytes>, suffixes: seq<bytes>)
    requires forall i :: 0 <= i < |domains| ==> IsName(domains[i])
    requires forall i :: 0 <= i < |suffixes| ==> IsName(suffixes[i]) && suffixes[i] != []
    ensures GoodRules(Calls(domains, suffixes))
  {
    var calls := Calls(domains, suffixes);
    forall i | 0 <= i < |calls|
      ensures GoodRule(calls[i])
    {
      if i < |suffixes| {
        LowerIsName(suffixes[i]);
      } else {
        LowerIsName(domains[i - |suffixes|]);
      }
    }
  }

  /** A suffix is kept as one: the rules before it are suffixes too. */
  lemma KeptSuffixes(domains: seq<bytes>, suffixes: seq<bytes>)
    ensures forall i :: 0 <= i < |suffixes| ==> Suffix(ToLower(suffixes[i])) in FirstRoles(Calls(domains, suffixes))
  {
    hide FirstRoles, ToLower;
    var calls := Calls(domains, suffixes);
    forall i | 0 <= i < |suffixes|
      ensures Suffix(ToLower(suffixes[i])) in FirstRoles(calls)
    {
      var j := FirstOf(calls, i);
      assert calls[j] == Suffix(ToLower(suffixes[i]));
      FirstRolesExactly(calls, calls[j]);
    }
  }

  lemma StrayQuery()
    ensures var rules := [Suffix([97])]; var q := [ROOT_LABEL, 97];
            GoodRules(rules) && StrayIn(rules, q) && !AcceptedBy(rules, q)
  {
    var rules, q := [Suffix([97])], [ROOT_LABEL, 97];
    assert q == [ROOT_LABEL] + rules[0].name;
    assert Stray(rules[0], q);
    assert q[0] != rules[0].name[0];
    assert !EndsWith(q, [DOT] + rules[0].name) by {
      assert q[0] != ([DOT] + rules[0].name)[0];
    }
  }

  /** The stray queries are exactly a newline and then a root domain. */
  lemma StrayExactly(rules: seq<Rule>, q: bytes)
    ensures StrayIn(rules, q) <==>
            |q| > 1 && q[0] == ROOT_LABEL && q[1] != DOT && Suffix(q[1..]) in rules
  {
    if StrayIn(rules, q) {
      var i :| 0 <= i < |rules| && Stray(rules[i], q);
      assert q[1..] == rules[i].name && rules[i] == Suffix(q[1..]);
    }
    if |q| > 1 && q[0] == ROOT_LABEL && q[1] != DOT && Suffix(q[1..]) in rules {
      var i :| 0 <= i < |rules| && rules[i] == Suffix(q[1..]);
      assert q == [ROOT_LABEL] + q[1..];
      assert Stray(rules[i], q);
    }
  }

  /** A root domain behind a newline, among the suffixes given to NewMatcher. */
  ghost predicate StraySuffix(suffixes: seq<bytes>, q: bytes) {
    exists i :: 0 <= i < |suffixes| && suffixes[i] != [] && suffixes[i][0] != 46 && SameButCase(q, [10] + suffixes[i])
  }

  /** What a caller can check instead: no query that starts otherwise is stray. */
  lemma StrayNeedsNewline(suffixes: seq<bytes>, q: bytes)
    ensures StraySuffix(suffixes, q) ==> q != [] && q[0] == 10
  {
  }

  lemma LowerNewline(q: bytes)
    ensures ToLower(q) != [] && ToLower(q)[0] == ROOT_LABEL ==> q != [] && q[0] == ROOT_LABEL
  {
    assert q != [] ==> ToLower(q)[0] == LowerByte(q[0]);
  }

  lemma StrayMeaning(domains: seq<bytes>, suffixes: seq<bytes>, q: bytes)
    ensures StrayIn(FirstRoles(Calls(domains, suffixes)), ToLower(q)) <==> StraySuffix(suffixes, q)
  {
    hide FirstRoles, ToLower, SameButCase;
    var calls, k := Calls(domains, suffixes), ToLower(q);
    var kept := FirstRoles(calls);
    forall i | 0 <= i < |suffixes| && suffixes[i] != []
      ensures Stray(Suffix(ToLower(suffixes[i])), k) <==> suffixes[i][0] != 46 && SameButCase(q, [10] + suffixes[i])
    {
      StrayLower(suffixes[i], q);
    }
    if StrayIn(kept, k) {
      FirstRolesAre(calls);
      var j :| 0 <= j < |kept| && Stray(kept[j], k);
      assert kept[j] in calls;
      var i :| 0 <= i < |calls| && calls[i] == kept[j];
      assert i < |suffixes| && suffixes[i] != [] && SameButCase(q, [10] + suffixes[i]);
    }
    if StraySuffix(suffixes, q) {
      KeptSuffixes(domains, suffixes);
      var i :| 0 <= i < |suffixes| && suffixes[i] != [] && suffixes[i][0] != 46 && SameButCase(q, [10] + suffixes[i]);
      var r := Suffix(ToLower(suffixes[i]));
      assert r in kept;
      var j :| 0 <= j < |kept| && kept[j] == r;
      assert Stray(kept[j], k);
    }
  }

  lemma StrayLower(s: bytes, q: bytes)
    requires s != []
    ensures Stray(Suffix(ToLower(s)), ToLower(q)) <==> s[0] != 46 && SameButCase(q, [10] + s)
  {
    hide SameButCase;
    SameIsLower(q, [10] + s);
    assert ToLower([10] + s) == [10] + ToLower(s);
    DotKept(s);
  }

  /** NewMatcher and then Match: the packed trie answers what a caller reads into the two lists, for
      every query but a newline followed by one of the root domains. */
  method NewMatcherAnswers(t: Tables, domains: seq<bytes>, suffixes: seq<bytes>, q: bytes) returns (found: bool)
    requires IsTables(t) && IsAscii(q)
    requires domains != [] || suffixes != []
    requires forall i :: 0 <= i < |domains| ==> IsName(domains[i])
    requires forall i :: 0 <= i < |suffixes| ==> IsName(suffixes[i]) && suffixes[i] != []
    requires 2 * Cost(Calls(domains, suffixes)) + 65 <= INT32_LIMIT
    ensures found <==> Promised(domains, suffixes, q) || StraySuffix(suffixes, q)
    ensures (q == [] || q[0] != 10) ==> (found <==> Promised(domains, suffixes, q))
  {
    hide FirstRoles, Calls, Promised, StraySuffix, AcceptedBy, StrayIn, IsMatcher;
    StrayNeedsNewline(suffixes, q);
    var m := NewMatcher(domains, suffixes);
    found := Match(t, m, q, FirstRoles(Calls(domains, suffixes)));
    NewMatcherMeaning(domains, suffixes, q);
    StrayMeaning(domains, suffixes, q);
  }

  /** Case does not matter: neither in queries nor in the lists. */
  lemma CaseDoesNotMatter(domains: seq<bytes>, suffixes: seq<bytes>, q: bytes,
                          domains': seq<bytes>, suffixes': seq<bytes>, q': bytes)
    requires SameButCase(q, q') && |domains| == |domains'| && |suffixes| == |suffixes'|
    requires forall i :: 0 <= i < |domains| ==> SameButCase(domains[i], domains'[i])
    requires forall i :: 0 <= i < |suffixes| ==> suffixes[i] != [] && SameButCase(suffixes[i], suffixes'[i])
    ensures forall i :: 0 <= i < |suffixes'| ==> suffixes'[i] != []
    ensures Promised(domains, suffixes, q) <==> Promised(domains', suffixes', q')
  {
    hide SuffixNames, SameButCase, ToLower, Accepts;
    SameIsLower(q, q');
    forall i | 0 <= i < |domains|
      ensures SameButCase(q, domains[i]) <==> SameButCase(q', domains'[i])
    {
      SameIsLower(domains[i], domains'[i]);
      LowerAnswers(domains[i], q);
      LowerAnswers(domains'[i], q');
    }
    forall i | 0 <= i < |suffixes|
      ensures suffixes'[i] != [] && (SuffixNames(suffixes[i], q) <==> SuffixNames(suffixes'[i], q'))
    {
      SameLength(suffixes[i], suffixes'[i]);
      SameIsLower(suffixes[i], suffixes'[i]);
      LowerAnswers(suffixes[i], q);
      LowerAnswers(suffixes'[i], q');
    }
  }

  lemma SameLength(a: bytes, b: bytes)
    requires SameButCase(a, b)
    ensures |a| == |b|
  {
  }

  /** MatcherBuilder keeps the case of its names while queries are lower-cased, so a name with a
      capital letter answers nothing. */
  lemma CapitalsNeverMatch(r: Rule, q: bytes, i: nat)
    requires GoodRule(r) && i < |r.name| && 65 <= r.name[i] <= 90
    ensures !Accepts(r, ToLower(q)) && !Stray(r, ToLower(q))
  {
    var k := ToLower(q);
    assert forall j :: 0 <= j < |k| ==> !(65 <= k[j] <= 90);
    EndsInItsBytes(k, r.name, i);
    EndsInItsBytes(k, [DOT] + r.name, i + 1);
    assert ([ROOT_LABEL] + r.name)[i + 1] == r.name[i];
  }

  /** So the builder meets its promise exactly for names without capitals. */
  lemma CapitalsExactly(r: Rule)
    requires GoodRule(r)
    ensures (exists q :: Accepts(r, ToLower(q))) <==> forall i :: 0 <= i < |r.name| ==> !(65 <= r.name[i] <= 90)
  {
    if q :| Accepts(r, ToLower(q)) {
      forall i | 0 <= i < |r.name|
        ensures !(65 <= r.name[i] <= 90)
      {
        if 65 <= r.name[i] <= 90 {
          CapitalsNeverMatch(r, q, i);
        }
      }
    }
    if forall i :: 0 <= i < |r.name| ==> !(65 <= r.name[i] <= 90) {
      assert ToLower(r.name) == r.name;
      NamesItself(r);
    }
  }

  /** The domain "A" does not even name itself. */
  lemma CapitalName()
    ensures var r := Domain([65]); GoodRule(r) && forall q :: !Accepts(r, ToLower(q))
  {
    forall q
      ensures !Accepts(Domain([65]), ToLower(q))
    {
      CapitalsNeverMatch(Domain([65]), q, 0);
    }
  }

  lemma EndsInItsBytes(k: bytes, t: bytes, i: nat)
    requires i < |t|
    ensures EndsWith(k, t) ==> t[i] in k
  {
    if EndsWith(k, t) {
      assert k[|k| - |t|..][i] == k[|k| - |t| + i];
    }
  }

  // ---------------------------------------------------------------- builder.go

  class MatcherBuilder {
    var seen: map<bytes, bool>
    var domainList: seq<bytes>
    /** Every rule handed to the builder, in order. */
    ghost var calls: seq<Rule>

    ghost predicate Valid()
      reads this
    {
      IsBuilding(seen, domainList, calls)
    }

    constructor ()
      ensures Valid() && calls == []
    {
      seen, domainList, calls := map[], [], [];
      new;
      NothingAdded();
    }

    method AddDomainSuffix(domain: bytes)
      requires Valid() && IsName(domain) && domain != []
      modifies this
      ensures Valid() && calls == old(calls) + [Suffix(domain)]
    {
      hide IsBuilding, FirstRoles, KeyOf;
      AddRule(seen, domainList, calls, Suffix(domain));
      calls := calls + [Suffix(domain)];
      if domain in seen && seen[domain] {
        return;
      }
      seen := seen[domain := true];
      var key := SuffixKey(domain);
      domainList := domainList + [key];
    }

    method AddDomain(domain: bytes)
      requires Valid() && IsName(domain)
      modifies this
      ensures Valid() && calls == old(calls) + [Domain(domain)]
    {
      hide IsBuilding, FirstRoles;
      AddRule(seen, domainList, calls, Domain(domain));
      calls := calls + [Domain(domain)];
      if domain in seen && seen[domain] {
        return;
      }
      seen := seen[domain := true];
      var key := ReverseDomain(domain);
      domainList := domainList + [key];
    }

    /** The list is sorted in place, so the builder can go on being used. */
    method Build() returns (m: SuccinctSet)
      requires Valid() && calls != []
      requires 2 * Cost(calls) + 65 <= INT32_LIMIT
      modifies this
      ensures Valid() && calls == old(calls)
      ensures IsMatcher(m, FirstRoles(calls))
    {
      hide Encodes, Increasing, AreKeys, IsBuilding;
      Packable(domainList, calls, seen);
      domainList := Sorted(domainList);
      m := NewSuccinctSet(domainList);
    }
  }

  /** Build and then Match: the packed trie answers by each name in the role it was first given,
      and the stray newline. */
  method BuilderAnswers(t: Tables, b: MatcherBuilder, q: bytes) returns (found: bool)
    requires IsTables(t) && IsAscii(q)
    requires b.Valid() && b.calls != [] && 2 * Cost(b.calls) + 65 <= INT32_LIMIT
    modifies b
    ensures b.Valid() && b.calls == old(b.calls) && GoodRules(b.calls)
    ensures found <==> exists i :: FirstNamed(b.calls, i)
                                   && (Accepts(b.calls[i], ToLower(q)) || Stray(b.calls[i], ToLower(q)))
    ensures (q == [] || q[0] != 10) ==>
              (found <==> exists i :: FirstNamed(b.calls, i) && Accepts(b.calls[i], ToLower(q)))
  {
    hide FirstRoles, AcceptedBy, StrayIn, IsMatcher, Accepts, FirstNamed;
    var m := b.Build();
    found := Match(t, m, q, FirstRoles(b.calls));
    AcceptedByFirst(b.calls, ToLower(q));
    LowerNewline(q);
  }
}
