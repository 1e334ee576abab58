/** Key-value state as the code sees it: a finite map from byte strings to byte strings. */
module Views {
  import opened Bytes
  import opened Options

  type View = map<bytes, bytes>

  function Lookup(v: View, key: bytes): Option<bytes> {
    if key in v then Some(v[key]) else None
  }

  lemma ViewsEqual(v: View, w: View)
    requires forall k :: Lookup(v, k) == Lookup(w, k)
    ensures v == w
  {
    forall k ensures k in v <==> k in w {
      assert Lookup(v, k) == Lookup(w, k);
    }
    forall k | k in v ensures v[k] == w[k] {
      assert Lookup(v, k) == Lookup(w, k);
    }
  }

  /** hypersdk's mutable state, as the actions see it. */
  class Mutable {
    var kv: View
  }
}
