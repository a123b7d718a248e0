/** Types and small functions that several modules share. */
module Common {

  datatype Option<T> = None | Some(value: T)

  type byte = x: int | 0 <= x < 256

  function Min(a: nat, b: nat): (r: nat)
    ensures r == a || r == b
    ensures r <= a && r <= b
  {
    if a < b then a else b
  }

  function Concat<T>(chunks: seq<seq<T>>): (whole: seq<T>) {
    if chunks == [] then [] else chunks[0] + Concat(chunks[1..])
  }

  lemma {:induction false} ConcatPush<T>(chunks: seq<seq<T>>, last: seq<T>)
    ensures Concat(chunks + [last]) == Concat(chunks) + last
  {
    if chunks == [] {
      assert chunks + [last] == [last];
      assert Concat([last]) == last + Concat([last][1..]);
    } else {
      assert (chunks + [last])[1..] == chunks[1..] + [last];
      ConcatPush(chunks[1..], last);
    }
  }
}
