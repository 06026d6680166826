/** What removing or assigning keys does to the values of a map. */
module Maps {

  lemma RemoveValues<K, V>(m: map<K, V>, a: set<K>)
    ensures (m - a).Values <= m.Values
  {
    forall v | v in (m - a).Values ensures v in m.Values {
      var k :| k in m - a && (m - a)[k] == v;
      assert m[k] == v;
    }
  }

  lemma UpdateValues<K, V>(m: map<K, V>, k: K, v: V)
    ensures m[k := v].Values <= m.Values + {v}
  {
    forall w | w in m[k := v].Values ensures w in m.Values + {v} {
      var j :| j in m[k := v] && m[k := v][j] == w;
      if j != k {
        assert m[j] == w;
      }
    }
  }
}
