/** What several of the models share: bytes, and a few functions on sequences. */
module Common {

  type byte = b: int | 0 <= b < 256

  /** A string in memory holds no NUL: NUL ends it. */
  type Text = s: seq<byte> | 0 !in s

  function Min(a: nat, b: nat): nat {
    if a < b then a else b
  }

  function Pow2(w: nat): (n: nat)
    ensures n > 0
  {
    if w == 0 then 1 else 2 * Pow2(w - 1)
  }

  function Reversed<T>(s: seq<T>): (r: seq<T>)
    ensures |r| == |s|
  {
    if s == [] then [] else Reversed(s[1..]) + [s[0]]
  }

  lemma {:induction false} ReversedAt<T>(s: seq<T>, k: nat)
    requires k < |s|
    ensures Reversed(s)[k] == s[|s| - 1 - k]
  {
    if k < |s| - 1 {
      ReversedAt(s[1..], k);
    }
  }

  lemma {:induction false} ReversedOfConcat<T>(s: seq<T>, t: seq<T>)
    ensures Reversed(s + t) == Reversed(t) + Reversed(s)
  {
    if s == [] {
      assert s + t == t;
    } else {
      assert (s + t)[1..] == s[1..] + t;
      ReversedOfConcat(s[1..], t);
    }
  }

  /** Records one after the other. */
  function Flat<T>(records: seq<seq<T>>): seq<T> {
    if records == [] then [] else Flat(records[..|records| - 1]) + records[|records| - 1]
  }

  lemma FlatAppend<T>(records: seq<seq<T>>, record: seq<T>)
    ensures Flat(records + [record]) == Flat(records) + record
  {
    assert (records + [record])[..|records|] == records;
  }
}
