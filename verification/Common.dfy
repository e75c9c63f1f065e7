/** Small datatypes shared by every module. */
module Common {

  datatype Option<+T> = None | Some(value: T)

  datatype Result<+T, +E> = Ok(value: T) | Err(error: E)

  function Min(a: int, b: int): int {
    if a <= b then a else b
  }

  function Max(a: int, b: int): int {
    if a <= b then b else a
  }

  /** `m.get(k, 0)` of a Python dictionary of integers. */
  function GetOrZero<K>(m: map<K, int>, k: K): int {
    if k in m then m[k] else 0
  }

  /** SQLite integers are signed 64-bit; binding a larger Python integer raises. */
  predicate FitsSqlite(v: int) {
    -0x8000_0000_0000_0000 <= v < 0x8000_0000_0000_0000
  }

  lemma SqliteRange(v: int)
    ensures FitsSqlite(v) <==> -9_223_372_036_854_775_808 <= v <= 9_223_372_036_854_775_807
  {
  }

  function Concat<T>(ss: seq<seq<T>>): seq<T> {
    if ss == [] then [] else ss[0] + Concat(ss[1..])
  }

  lemma {:induction false} ConcatAppend<T>(ss: seq<seq<T>>, ts: seq<seq<T>>)
    ensures Concat(ss + ts) == Concat(ss) + Concat(ts)
  {
    if ss == [] {
      assert ss + ts == ts;
    } else {
      assert (ss + ts)[1..] == ss[1..] + ts;
      ConcatAppend(ss[1..], ts);
    }
  }

  lemma ConcatSnoc<T>(ss: seq<seq<T>>, s: seq<T>)
    ensures Concat(ss + [s]) == Concat(ss) + s
  {
    ConcatAppend(ss, [s]);
    assert Concat([s]) == s + Concat<T>([]);
  }
}
