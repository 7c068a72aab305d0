/**
 * One component of a route pattern (src/segment.rs). A segment is either a
 * literal, matched exactly, or a dynamic wildcard that matches any single
 * component. Equality and hashing ignore the name of a dynamic segment, so
 * every dynamic segment is the same map key; `Key` is that normal form and
 * is what the trie's children maps are keyed by.
 */
module Segments {

  datatype Segment = Literal(text: string) | Dynamic(name: string)

  /** What `Eq` and `Hash` see of a segment: the text of a literal, nothing of a wildcard. */
  datatype Key = LitKey(text: string) | DynKey

  function KeyOf(s: Segment): Key {
    match s
    case Literal(t) => LitKey(t)
    case Dynamic(_) => DynKey
  }

  function KeysOf(p: seq<Segment>): (ks: seq<Key>)
    ensures |ks| == |p|
    ensures forall i :: 0 <= i < |p| ==> ks[i] == KeyOf(p[i])
  {
    seq(|p|, i requires 0 <= i < |p| => KeyOf(p[i]))
  }

  /**
   * `PartialEq::eq`: literals by text, every wildcard equal to every
   * wildcard. It holds exactly when the keys are equal, so `Key` may stand
   * for `Segment` as a map key.
   */
  predicate SegEq(a: Segment, b: Segment)
    ensures SegEq(a, b) <==> KeyOf(a) == KeyOf(b)
  {
    match (a, b)
    case (Literal(x), Literal(y)) => x == y
    case (Dynamic(_), Dynamic(_)) => true
    case _ => false
  }

  /**
   * The data `Hash::hash` feeds to the hasher: a literal writes its text,
   * a wildcard writes nothing. Any hasher's output is a function of this.
   */
  function HashFeed(s: Segment): seq<string> {
    if s.Literal? then [s.text] else []
  }

  /** Two wildcards are equal whatever their names. */
  lemma DynamicAlwaysEqual(x: string, y: string)
    ensures SegEq(Dynamic(x), Dynamic(y)) && KeyOf(Dynamic(x)) == KeyOf(Dynamic(y))
  {
  }

  /** Literals are equal exactly when their texts are; a literal never equals a wildcard. */
  lemma LiteralEquality(x: string, y: string)
    ensures SegEq(Literal(x), Literal(y)) <==> x == y
    ensures !SegEq(Literal(x), Dynamic(y)) && !SegEq(Dynamic(y), Literal(x))
  {
  }

  /** `Eq` is lawful: reflexive, symmetric and transitive. */
  lemma SegEqIsEquivalence(a: Segment, b: Segment, c: Segment)
    ensures SegEq(a, a)
    ensures SegEq(a, b) ==> SegEq(b, a)
    ensures SegEq(a, b) && SegEq(b, c) ==> SegEq(a, c)
  {
  }

  /** `Hash` agrees with `Eq`, and distinct literal texts feed distinct data. */
  lemma HashConsistentWithEq(a: Segment, b: Segment)
    ensures SegEq(a, b) ==> HashFeed(a) == HashFeed(b)
    ensures a.Literal? && b.Literal? ==> (HashFeed(a) == HashFeed(b) <==> a.text == b.text)
    ensures a.Dynamic? && b.Dynamic? ==> HashFeed(a) == HashFeed(b)
  {
  }

  /**
   * A trie node keyed by segments has at most one wildcard child. The
   * content is in `SegEq`'s contract: segments equal under `Eq` are
   * segments with one `Key`, so a `HashMap` keyed by segments is a map
   * keyed by `Key`, and there all wildcards share the one key `DynKey`.
   */
  lemma AtMostOneDynamicKey<V>(children: map<Key, V>)
    ensures |set k | k in children && k.DynKey?| <= 1
  {
    var ds := set k | k in children && k.DynKey?;
    assert ds <= {DynKey};
    if DynKey in ds {
      assert ds == {DynKey};
    } else {
      assert ds == {};
    }
  }

  /** Equal segment sequences in the sense of `Path`'s derived `Eq`. */
  predicate PathEq(p: seq<Segment>, q: seq<Segment>) {
    |p| == |q| && forall i :: 0 <= i < |p| ==> SegEq(p[i], q[i])
  }

  lemma PathEqIsKeysEq(p: seq<Segment>, q: seq<Segment>)
    ensures PathEq(p, q) <==> KeysOf(p) == KeysOf(q)
  {
    if KeysOf(p) == KeysOf(q) {
      forall i | 0 <= i < |p| ensures SegEq(p[i], q[i]) {
        assert KeysOf(p)[i] == KeysOf(q)[i];
      }
    }
    if PathEq(p, q) {
      assert forall i :: 0 <= i < |p| ==> KeysOf(p)[i] == KeysOf(q)[i];
    }
  }
}
