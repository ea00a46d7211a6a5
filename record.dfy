/**
  A props object as the login builders see it: its own string-keyed properties in the
  order the caller wrote them. Keys are distinct, as in any JavaScript object. An optional
  property the caller leaves out is simply absent.
 */
module Record {
  import opened Wrappers

  /** One property: key and value. */
  type Entry = (string, string)

  predicate DistinctKeys(ps: seq<Entry>) {
    forall i, j | 0 <= i < j < |ps| :: ps[i].0 != ps[j].0
  }

  /** `ps[k]`: the value of property `k`, or None when it is absent. */
  function Lookup(ps: seq<Entry>, k: string): Option<string> {
    if ps == [] then None
    else if ps[0].0 == k then Some(ps[0].1)
    else Lookup(ps[1..], k)
  }

  /** A destructuring default `const { k = d } = ps`: the caller's value, or `d` when absent. */
  function GetOr(ps: seq<Entry>, k: string, d: string): string {
    match Lookup(ps, k)
    case Some(v) => v
    case None => d
  }

  /**
    The rest element `...rest` of a destructuring that named the keys `ks`: the caller's
    other properties, in the caller's order.
   */
  function Omit(ps: seq<Entry>, ks: set<string>): (r: seq<Entry>)
    ensures |r| <= |ps|
    ensures forall e :: e in r <==> e in ps && e.0 !in ks
  {
    if ps == [] then []
    else if ps[0].0 in ks then Omit(ps[1..], ks)
    else [ps[0]] + Omit(ps[1..], ks)
  }

  /**
    The leading shorthand properties of a literal `{ k1, k2, ...rest }`, where each `ki`
    was destructured with default `di`: `defaults` lists the `(ki, di)` in literal order.
   */
  function WithDefaults(ps: seq<Entry>, defaults: seq<Entry>): (r: seq<Entry>)
    ensures |r| == |defaults|
    ensures forall i | 0 <= i < |r| ::
      r[i] == (defaults[i].0, GetOr(ps, defaults[i].0, defaults[i].1))
  {
    if defaults == [] then []
    else [(defaults[0].0, GetOr(ps, defaults[0].0, defaults[0].1))] + WithDefaults(ps, defaults[1..])
  }

  /**
    `{ k1, k2, ...rest }` after `const { k1 = d1, k2 = d2, ...rest } = ps` (with `consumed`
    every key the destructuring named): the defaulted keys first, then the rest.
   */
  function Spread(ps: seq<Entry>, defaults: seq<Entry>, consumed: set<string>): seq<Entry> {
    WithDefaults(ps, defaults) + Omit(ps, consumed)
  }

  /** True when `r` is `ps` with some entries dropped and the order of the others kept. */
  predicate Subsequence(r: seq<Entry>, ps: seq<Entry>)
    decreases |ps|
  {
    if r == [] then true
    else if ps == [] then false
    else if r[0] == ps[0] then Subsequence(r[1..], ps[1..])
    else Subsequence(r, ps[1..])
  }

  /**
    Every key in `required` is present: what a props type with those required keys
    guarantees of any value it accepts.
   */
  predicate HasRequired(ps: seq<Entry>, required: set<string>) {
    forall k | k in required :: Lookup(ps, k).Some?
  }

  /**
    No key outside `allowed`. TypeScript enforces this only for an object literal written at
    the call; a typed variable may carry keys its type does not declare.
   */
  predicate OnlyKeys(ps: seq<Entry>, allowed: set<string>) {
    forall i | 0 <= i < |ps| :: ps[i].0 in allowed
  }

  /** With distinct keys, `ps[k]` is `v` exactly when `(k, v)` is one of the properties. */
  lemma {:induction false} LookupIn(ps: seq<Entry>, k: string, v: string)
    requires DistinctKeys(ps)
    ensures Lookup(ps, k) == Some(v) <==> (k, v) in ps
  {
    if ps != [] {
      DistinctCons(ps[0], ps[1..]);
      assert [ps[0]] + ps[1..] == ps;
      LookupIn(ps[1..], k, v);
      assert (k, v) in ps <==> ps[0] == (k, v) || (k, v) in ps[1..] by {
        assert ps == [ps[0]] + ps[1..];
      }
    }
  }

  /** A key is absent exactly when no property carries it. */
  lemma {:induction false} LookupNone(ps: seq<Entry>, k: string)
    ensures Lookup(ps, k) == None <==> forall i | 0 <= i < |ps| :: ps[i].0 != k
  {
    if ps != [] {
      LookupNone(ps[1..], k);
      assert forall i | 1 <= i < |ps| :: ps[i] == ps[1..][i - 1];
    }
  }

  /** Looking a key up in `a + b` finds it in `a` first. */
  lemma {:induction false} LookupAppend(a: seq<Entry>, b: seq<Entry>, k: string)
    ensures Lookup(a + b, k) == if Lookup(a, k).Some? then Lookup(a, k) else Lookup(b, k)
  {
    if a != [] {
      assert (a + b)[1..] == a[1..] + b;
      LookupAppend(a[1..], b, k);
    } else {
      assert a + b == b;
    }
  }

  /** The rest element holds exactly the caller's values for the keys it did not name. */
  lemma {:induction false} OmitLookup(ps: seq<Entry>, ks: set<string>, k: string)
    ensures Lookup(Omit(ps, ks), k) == if k in ks then None else Lookup(ps, k)
  {
    if ps != [] {
      OmitLookup(ps[1..], ks, k);
    }
  }

  /** The rest element keeps the caller's order. */
  lemma {:induction false} OmitSubsequence(ps: seq<Entry>, ks: set<string>)
    ensures Subsequence(Omit(ps, ks), ps)
  {
    if ps != [] {
      var r := Omit(ps[1..], ks);
      OmitSubsequence(ps[1..], ks);
      if ps[0].0 in ks && r != [] {
        assert r[0] in r;
      }
    }
  }

  /** An entry in front of an object keeps the keys distinct exactly when its key is new. */
  lemma DistinctCons(e: Entry, t: seq<Entry>)
    ensures DistinctKeys([e] + t) <==> DistinctKeys(t) && forall x | x in t :: x.0 != e.0
  {
    var s := [e] + t;
    assert forall i | 0 <= i < |t| :: s[i + 1] == t[i];
    if DistinctKeys(s) {
      forall x | x in t ensures x.0 != e.0 {
        var m :| 0 <= m < |t| && t[m] == x;
        assert s[0] == e && s[m + 1] == x;
      }
    }
    if DistinctKeys(t) && forall x | x in t :: x.0 != e.0 {
      forall i, j | 0 <= i < j < |s| ensures s[i].0 != s[j].0 {
        assert s[j] == t[j - 1];
        if i > 0 {
          assert s[i] == t[i - 1];
        } else {
          assert t[j - 1] in t;
        }
      }
    }
  }

  /** The rest element of an object is an object: its keys are distinct. */
  lemma {:induction false} OmitDistinct(ps: seq<Entry>, ks: set<string>)
    requires DistinctKeys(ps)
    ensures DistinctKeys(Omit(ps, ks))
  {
    if ps != [] {
      DistinctCons(ps[0], ps[1..]);
      assert [ps[0]] + ps[1..] == ps;
      OmitDistinct(ps[1..], ks);
      if ps[0].0 !in ks {
        DistinctCons(ps[0], Omit(ps[1..], ks));
      }
    }
  }

  /** The defaulted properties map each defaulted key to the caller's value or its default. */
  lemma {:induction false} WithDefaultsLookup(ps: seq<Entry>, defaults: seq<Entry>, k: string)
    ensures Lookup(WithDefaults(ps, defaults), k) ==
      match Lookup(defaults, k)
      case Some(d) => Some(GetOr(ps, k, d))
      case None => None
  {
    if defaults != [] {
      WithDefaultsLookup(ps, defaults[1..], k);
    }
  }

  /**
    What a spread literal holds: a defaulted key maps to the caller's value or else its
    default, another named key is gone, and every other key keeps the caller's value; no
    key occurs twice.
   */
  lemma SpreadLookup(ps: seq<Entry>, defaults: seq<Entry>, consumed: set<string>, k: string)
    requires DistinctKeys(ps) && DistinctKeys(defaults)
    requires forall i | 0 <= i < |defaults| :: defaults[i].0 in consumed
    ensures DistinctKeys(Spread(ps, defaults, consumed))
    ensures Lookup(Spread(ps, defaults, consumed), k) ==
      match Lookup(defaults, k)
      case Some(d) => Some(GetOr(ps, k, d))
      case None => if k in consumed then None else Lookup(ps, k)
  {
    var a, b := WithDefaults(ps, defaults), Omit(ps, consumed);
    LookupAppend(a, b, k);
    WithDefaultsLookup(ps, defaults, k);
    OmitLookup(ps, consumed, k);
    OmitDistinct(ps, consumed);
    LookupNone(defaults, k);
    var s := a + b;
    forall i, j | 0 <= i < j < |s| ensures s[i].0 != s[j].0 {
      if j < |a| {
        assert s[i].0 == defaults[i].0 && s[j].0 == defaults[j].0;
      } else if i >= |a| {
        assert s[i] == b[i - |a|] && s[j] == b[j - |a|];
      } else {
        assert s[i].0 == defaults[i].0 && defaults[i].0 in consumed;
        assert s[j] == b[j - |a|] && b[j - |a|] in b;
      }
    }
  }

  /**
    The shape of a spread literal: the defaulted keys first, in literal order, each with
    the caller's value or its default; then the caller's other properties in the caller's
    order, values unchanged; keys not named by the destructuring keep the caller's value;
    no key occurs twice.
   */
  lemma SpreadSpec(ps: seq<Entry>, defaults: seq<Entry>, consumed: set<string>)
    requires DistinctKeys(ps) && DistinctKeys(defaults)
    requires forall i | 0 <= i < |defaults| :: defaults[i].0 in consumed
    ensures var r := Spread(ps, defaults, consumed);
      && DistinctKeys(r)
      && |r| >= |defaults|
      && (forall i | 0 <= i < |defaults| :: r[i] == (defaults[i].0, GetOr(ps, defaults[i].0, defaults[i].1)))
      && Subsequence(r[|defaults|..], ps)
      && (forall k :: Lookup(r[|defaults|..], k) == if k in consumed then None else Lookup(ps, k))
      && (forall k | k !in consumed :: Lookup(r, k) == Lookup(ps, k))
  {
    var r := Spread(ps, defaults, consumed);
    assert r[|defaults|..] == Omit(ps, consumed);
    OmitSubsequence(ps, consumed);
    forall k ensures Lookup(r[|defaults|..], k) == if k in consumed then None else Lookup(ps, k) {
      OmitLookup(ps, consumed, k);
    }
    forall k | k !in consumed ensures Lookup(r, k) == Lookup(ps, k) {
      SpreadLookup(ps, defaults, consumed, k);
      LookupNone(defaults, k);
    }
    if defaults == [] {
      OmitDistinct(ps, consumed);
    } else {
      SpreadLookup(ps, defaults, consumed, defaults[0].0);
    }
  }
}
