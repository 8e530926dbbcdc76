/** Map operations the Gradle tasks perform in place. */
module Maps {
  /** `source.forEach { target.putIfAbsent(it.key, it.value) }` on a `HashMap`: a key of
      `source` takes its value from `source` when `target` lacks it or maps it to null
      (`isNull`); every other key keeps its value from `target`. Without nulls in
      `target` this is the union in which `target` wins. */
  method PutAllIfAbsent<K, V>(target: map<K, V>, source: map<K, V>, isNull: V -> bool) returns (merged: map<K, V>)
    ensures merged.Keys == target.Keys + source.Keys
    ensures forall k :: k in merged ==>
      merged[k] == (if k in source && (k !in target || isNull(target[k])) then source[k] else target[k])
    ensures (forall k :: k in target ==> !isNull(target[k])) ==> merged == source + target
  {
    merged := target;
    var remaining := source.Keys;
    while remaining != {}
      invariant remaining <= source.Keys
      invariant merged.Keys == target.Keys + (source.Keys - remaining)
      invariant forall k :: k in merged ==>
        merged[k] == (if k in source && k !in remaining && (k !in target || isNull(target[k])) then source[k] else target[k])
      decreases remaining
    {
      var k :| k in remaining;
      if k !in merged || isNull(merged[k]) {
        merged := merged[k := source[k]];
      }
      remaining := remaining - {k};
    }
  }
}
