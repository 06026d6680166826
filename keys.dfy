/** Internal cache keys: the cache type, an underscore, then the serialized
    identifier (the output of JSON.stringify, taken here as a string). */
module Keys {

  function Make(cacheType: string, id: string): (k: string)
    ensures |k| == |cacheType| + 1 + |id|
    ensures k[..|cacheType|] == cacheType && k[|cacheType|] == '_'
    ensures k[|cacheType| + 1..] == id
  {
    cacheType + "_" + id
  }

  /** Within one cache type, distinct identifiers give distinct keys. */
  lemma MakeInjective(cacheType: string, id1: string, id2: string)
    requires Make(cacheType, id1) == Make(cacheType, id2)
    ensures id1 == id2
  {
  }

  /** Keys built under two different types that contain no underscore never
      collide, whatever the identifiers. */
  lemma {:induction false} TypesNamespaced(t1: string, t2: string, id1: string, id2: string)
    requires t1 != t2 && '_' !in t1 && '_' !in t2
    ensures Make(t1, id1) != Make(t2, id2)
  {
    var k1, k2 := Make(t1, id1), Make(t2, id2);
    if |t1| == |t2| {
      assert k1[..|t1|] != k2[..|t2|];
    } else if |t1| < |t2| {
      assert k1[|t1|] == '_' && k2[|t1|] == t2[|t1|];
    } else {
      assert k2[|t2|] == '_' && k1[|t2|] == t1[|t2|];
    }
  }

  /** The two cache types of the library keep their entries apart. */
  lemma ForceAndRenewKeysDiffer(id1: string, id2: string)
    ensures Make("force", id1) != Make("renew", id2)
  {
    TypesNamespaced("force", "renew", id1, id2);
  }
}
