/** Bytes, texts and the few sequence facts that every other module shares. */
module Bytes {

  type Byte = b: int | 0 <= b < 0x100

  /** The bytes of a text, without the NUL that ends a C string. */
  type Text = seq<Byte>

  datatype Option<+T> = None | Some(value: T)

  /** What `*p` reads: positions at or past the end hold the terminating NUL. */
  function At(t: Text, i: nat): Byte {
    if i < |t| then t[i] else 0
  }

  /** `s` stands in `t` at position `p`. */
  predicate Occurs(t: Text, p: nat, s: Text) {
    p + |s| <= |t| && t[p..p + |s|] == s
  }

  lemma OccursConcat(t: Text, p: nat, a: Text, b: Text)
    ensures Occurs(t, p, a + b) <==> Occurs(t, p, a) && Occurs(t, p + |a|, b)
  {
    if p + |a + b| <= |t| {
      var w := t[p..p + |a + b|];
      assert w[..|a|] == t[p..p + |a|];
      assert w[|a|..] == t[p + |a|..p + |a| + |b|];
      assert (a + b)[..|a|] == a && (a + b)[|a|..] == b;
      assert w == w[..|a|] + w[|a|..];
    }
  }

  lemma OccursAt(t: Text, p: nat, s: Text, i: nat)
    requires Occurs(t, p, s) && i < |s|
    ensures At(t, p + i) == s[i]
  {
    assert t[p..p + |s|][i] == t[p + i];
  }

  /** Copies of one byte, as `PutN` writes them. */
  function Repeat(c: Byte, n: nat): (s: Text)
    ensures |s| == n
    ensures forall i :: 0 <= i < n ==> s[i] == c
  {
    seq(n, i => c)
  }
}
