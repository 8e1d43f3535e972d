/** Domain rules and the keys that stand for them (common/domain/matcher.go:44-77). */
module Rules {
  import opened Bytes
  import opened TrieMeaning
  import opened Lookup

  /** A rule in the role it was added in. */
  datatype Rule = Domain(name: bytes) | Suffix(name: bytes)

  ghost predicate EndsWith(s: bytes, t: bytes) {
    |t| <= |s| && s[|s| - |t|..] == t
  }

  /** What the rules promise: a domain names itself; a suffix with a leading dot names everything
      ending in it; any other suffix names itself and everything under it. */
  ghost predicate Accepts(r: Rule, q: bytes)
    requires r.Suffix? ==> r.name != []
  {
    match r
    case Domain(n) => q == n
    case Suffix(n) => if n[0] == DOT then EndsWith(q, n) else q == n || EndsWith(q, [DOT] + n)
  }

  /** The one query a rule answers without promising to: a root domain behind a newline. */
  ghost predicate Stray(r: Rule, q: bytes) {
    r.Suffix? && r.name != [] && r.name[0] != DOT && q == [ROOT_LABEL] + r.name
  }

  function Reverse(s: bytes): (r: bytes)
    ensures |r| == |s|
    ensures forall i :: 0 <= i < |s| ==> r[i] == s[|s| - 1 - i]
  {
    seq(|s|, i requires 0 <= i < |s| => s[|s| - 1 - i])
  }

  function KeyOf(r: Rule): bytes
    requires r.Suffix? ==> r.name != []
  {
    match r
    case Domain(n) => Reverse(n)
    case Suffix(n) => Reverse(n) + [if n[0] == DOT then PREFIX_LABEL else ROOT_LABEL]
  }

  /** Names hold no byte that sorts with or below the markers, and a suffix holds some byte. */
  ghost predicate GoodRule(r: Rule) {
    && (forall i :: 0 <= i < |r.name| ==> PREFIX_LABEL < r.name[i] < 128)
    && (r.Suffix? ==> r.name != [])
  }

  ghost predicate GoodRules(rules: seq<Rule>) {
    forall i :: 0 <= i < |rules| ==> GoodRule(rules[i])
  }

  lemma ReverseInjective(s: bytes, t: bytes)
    requires Reverse(s) == Reverse(t)
    ensures s == t
  {
    forall i | 0 <= i < |s|
      ensures |t| == |s| && s[i] == t[i]
    {
      assert |Reverse(s)| == |Reverse(t)|;
      assert Reverse(s)[|s| - 1 - i] == s[i];
    }
  }

  lemma ReverseConcat(s: bytes, t: bytes)
    ensures Reverse(s + t) == Reverse(t) + Reverse(s)
  {
  }

  /** Rules with different names have different keys. */
  lemma KeyOfInjective(r: Rule, s: Rule)
    requires GoodRule(r) && GoodRule(s) && KeyOf(r) == KeyOf(s)
    ensures r.name == s.name
  {
    LastByte(r);
    LastByte(s);
    var a, b := KeyOf(r), KeyOf(s);
    if r.Suffix? {
      assert Reverse(r.name) == a[..|a| - 1] == b[..|b| - 1] == Reverse(s.name);
    }
    ReverseInjective(r.name, s.name);
  }

  /** Only suffix keys end in a marker. */
  lemma LastByte(r: Rule)
    requires GoodRule(r)
    ensures var x := KeyOf(r); x != [] ==> (x[|x| - 1] <= PREFIX_LABEL <==> r.Suffix?)
    ensures KeyOf(r) == [] ==> r.Domain?
    ensures r.Suffix? ==> var x := KeyOf(r); x[..|x| - 1] == Reverse(r.name)
  {
    if r.Domain? && r.name != [] {
      assert KeyOf(r)[|r.name| - 1] == r.name[0];
    }
  }

  lemma KeyIsWellFormed(r: Rule)
    requires GoodRule(r)
    ensures WellFormedKey(KeyOf(r))
  {
  }

  // ---------------------------------------------------------------- one rule against one query

  /** Key x of one rule answers k. */
  ghost predicate KeyMatches(x: bytes, k: bytes) {
    || x == k
    || (exists d :: 0 <= d <= |k| && MarkedAt(x, k, d))
  }

  ghost predicate MarkedAt(x: bytes, k: bytes, d: nat)
    requires d <= |k|
  {
    || x == k[..d] + [PREFIX_LABEL]
    || (x == k[..d] + [ROOT_LABEL] && (d == |k| || k[d] == DOT))
  }

  lemma HasMatchByKey(keys: seq<bytes>, k: bytes)
    ensures HasMatch(keys, k) <==> exists x :: x in keys && KeyMatches(x, k)
  {
    if HasMatch(keys, k) && k !in keys {
      var d :| 0 <= d <= |k| && StemMatch(keys, k, d);
      if k[..d] + [PREFIX_LABEL] in keys {
        assert MarkedAt(k[..d] + [PREFIX_LABEL], k, d);
        assert KeyMatches(k[..d] + [PREFIX_LABEL], k);
      } else {
        assert MarkedAt(k[..d] + [ROOT_LABEL], k, d);
        assert KeyMatches(k[..d] + [ROOT_LABEL], k);
      }
    }
    if k in keys {
      assert KeyMatches(k, k);
    }
    forall x | x in keys && KeyMatches(x, k)
      ensures HasMatch(keys, k)
    {
      if x != k {
        var d :| 0 <= d <= |k| && MarkedAt(x, k, d);
        assert StemMatch(keys, k, d);
      }
    }
  }

  lemma EndsWithReversed(q: bytes, t: bytes)
    ensures EndsWith(q, t) <==> IsPrefix(Reverse(t), Reverse(q))
  {
    var k := Reverse(q);
    if |t| <= |q| {
      var u := q[|q| - |t|..];
      assert k[..|t|] == Reverse(u);
      if Reverse(u) == Reverse(t) {
        ReverseInjective(u, t);
      }
    }
  }

  /** A suffix rule's key is its reversed name with a marker, so it matches at the name's length. */
  lemma SuffixMarkedAt(n: bytes, m: byte, k: bytes)
    requires m == PREFIX_LABEL || m == ROOT_LABEL
    ensures (exists d :: 0 <= d <= |k| && MarkedAt(Reverse(n) + [m], k, d))
       <==> IsPrefix(Reverse(n), k) && (m == ROOT_LABEL ==> |n| == |k| || k[|n|] == DOT)
  {
    var x := Reverse(n) + [m];
    var p := Reverse(n);
    forall d | 0 <= d <= |k| && MarkedAt(x, k, d)
      ensures d == |n| && k[..d] == p && (m == ROOT_LABEL ==> d == |k| || k[d] == DOT)
    {
      assert |x| == d + 1 && x[..d] == k[..d] && x[..d] == p;
      assert x[d] == m;
    }
    if IsPrefix(p, k) && (m == ROOT_LABEL ==> |n| == |k| || k[|n|] == DOT) {
      assert k[..|n|] == p;
      assert MarkedAt(x, k, |n|);
    }
  }

  /** What a rule's key answers is what the rule accepts, and the stray newline. */
  lemma KeyAnswersRule(r: Rule, q: bytes)
    requires GoodRule(r)
    ensures KeyMatches(KeyOf(r), Reverse(q)) <==> Accepts(r, q) || Stray(r, q)
  {
    var k := Reverse(q);
    if r.Domain? {
      DomainKey(r.name, q);
    } else {
      var n := r.name;
      var m := if n[0] == DOT then PREFIX_LABEL else ROOT_LABEL;
      SuffixMarkedAt(n, m, k);
      EndsWithReversed(q, n);
      SuffixIsKey(n, m, q);
      if m == ROOT_LABEL {
        RootOrUnder(n, q);
      }
    }
  }

  lemma DomainKey(n: bytes, q: bytes)
    requires forall i :: 0 <= i < |n| ==> PREFIX_LABEL < n[i]
    ensures KeyMatches(Reverse(n), Reverse(q)) <==> q == n
  {
    var x, k := Reverse(n), Reverse(q);
    forall d | 0 <= d <= |k|
      ensures !MarkedAt(x, k, d)
    {
      var y := k[..d];
      assert (y + [PREFIX_LABEL])[d] <= PREFIX_LABEL && (y + [ROOT_LABEL])[d] <= PREFIX_LABEL;
    }
    if x == k {
      ReverseInjective(n, q);
    }
  }

  /** The key of a suffix equals a reversed query only when the query starts with the marker. */
  lemma SuffixIsKey(n: bytes, m: byte, q: bytes)
    ensures Reverse(n) + [m] == Reverse(q) <==> q == [m] + n
  {
    ReverseConcat([m], n);
    assert Reverse([m]) == [m];
    if Reverse(n) + [m] == Reverse(q) {
      ReverseInjective([m] + n, q);
    }
  }

  lemma RootOrUnder(n: bytes, q: bytes)
    ensures IsPrefix(Reverse(n), Reverse(q)) && (|n| == |q| || Reverse(q)[|n|] == DOT)
       <==> q == n || EndsWith(q, [DOT] + n)
  {
    var k := Reverse(q);
    EndsWithReversed(q, n);
    EndsWithReversed(q, [DOT] + n);
    ReverseConcat([DOT], n);
    assert Reverse([DOT]) == [DOT];
    LongerPrefix(Reverse(n), DOT, k);
  }

  // ---------------------------------------------------------------- sets of rules

  ghost predicate AcceptedBy(rules: seq<Rule>, q: bytes)
    requires GoodRules(rules)
  {
    exists i :: 0 <= i < |rules| && Accepts(rules[i], q)
  }

  ghost predicate StrayIn(rules: seq<Rule>, q: bytes) {
    exists i :: 0 <= i < |rules| && Stray(rules[i], q)
  }

  /** keys holds the keys of rules and nothing else. */
  ghost predicate AreKeys(keys: seq<bytes>, rules: seq<Rule>)
    requires GoodRules(rules)
  {
    && (forall x :: x in keys ==> exists i :: 0 <= i < |rules| && x == KeyOf(rules[i]))
    && (forall i :: 0 <= i < |rules| ==> KeyOf(rules[i]) in keys)
  }

  lemma KeysAnswerRules(keys: seq<bytes>, rules: seq<Rule>, q: bytes)
    requires GoodRules(rules) && AreKeys(keys, rules)
    ensures HasMatch(keys, Reverse(q)) <==> AcceptedBy(rules, q) || StrayIn(rules, q)
  {
    var k := Reverse(q);
    HasMatchByKey(keys, k);
    if x :| x in keys && KeyMatches(x, k) {
      var i :| 0 <= i < |rules| && x == KeyOf(rules[i]);
      KeyAnswersRule(rules[i], q);
    }
    forall i | 0 <= i < |rules| && (Accepts(rules[i], q) || Stray(rules[i], q))
      ensures exists x :: x in keys && KeyMatches(x, k)
    {
      KeyAnswersRule(rules[i], q);
      assert KeyMatches(KeyOf(rules[i]), k);
    }
  }

  lemma KeysAreWellFormed(keys: seq<bytes>, rules: seq<Rule>)
    requires GoodRules(rules) && AreKeys(keys, rules)
    ensures WellFormed(keys)
  {
    forall i | 0 <= i < |keys|
      ensures WellFormedKey(keys[i])
    {
      assert keys[i] in keys;
      var j :| 0 <= j < |rules| && keys[i] == KeyOf(rules[j]);
      KeyIsWellFormed(rules[j]);
    }
    forall p: bytes
      ensures !(p + [PREFIX_LABEL] in keys && p + [ROOT_LABEL] in keys)
    {
      if p + [PREFIX_LABEL] in keys && p + [ROOT_LABEL] in keys {
        var i :| 0 <= i < |rules| && p + [PREFIX_LABEL] == KeyOf(rules[i]);
        var j :| 0 <= j < |rules| && p + [ROOT_LABEL] == KeyOf(rules[j]);
        MarkedKey(rules[i], p, PREFIX_LABEL);
        MarkedKey(rules[j], p, ROOT_LABEL);
        ReverseInjective(rules[i].name, rules[j].name);
      }
    }
  }

  lemma MarkedKey(r: Rule, p: bytes, m: byte)
    requires GoodRule(r) && KeyOf(r) == p + [m] && m <= PREFIX_LABEL
    ensures r.Suffix? && Reverse(r.name) == p && m == if r.name[0] == DOT then PREFIX_LABEL else ROOT_LABEL
  {
    var x := KeyOf(r);
    LastByte(r);
    assert x[|x| - 1] == m && x[..|x| - 1] == p;
  }
}
