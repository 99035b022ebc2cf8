/** Small facts about finite sets and maps used by the loops that walk them. */
module Sets {
  /** Moving one element from the pending part to the handled part. */
  lemma MovedOne<X>(all: set<X>, remaining: set<X>, done: set<X>, x: X)
    requires remaining <= all && done == all - remaining && x in remaining
    ensures remaining - {x} <= all && done + {x} == all - (remaining - {x})
  {
  }

  /** Nothing pending: everything was handled. */
  lemma AllMoved<X>(all: set<X>, done: set<X>)
    requires done == all - {}
    ensures done == all
  {
  }

  /** A non-empty set has an element to pick. */
  lemma Element<X>(s: set<X>) returns (x: X)
    requires s != {}
    ensures x in s
  {
    x :| x in s;
  }

  /** Dropping one more key is dropping the larger set. */
  lemma DroppedMore<K, V>(m: map<K, V>, ks: set<K>, k: K)
    ensures (m - ks) - {k} == m - (ks + {k})
  {
  }

  /** A value of a map is the value of some key. */
  lemma KeyOf<K, V>(m: map<K, V>, v: V) returns (k: K)
    requires v in m.Values
    ensures k in m && m[k] == v
  {
    k :| k in m && m[k] == v;
  }
}
