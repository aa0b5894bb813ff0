/**
 * Turning one order's aggregated product string into a transaction.
 *
 * The warehouse query string-aggregates each order's products with ", ";
 * the script splits that value back on the exact separator ", ", and an
 * order whose aggregate is NULL (not a string) becomes the empty order.
 */
module Orders {

  /** A product label. */
  type Item = string

  /** One order's value of `base_product_array` as it comes back from the warehouse. */
  datatype OrderValue = Null | Text(value: string)

  /** The separator ", " starts at index i of s. */
  predicate SepAt(s: string, i: int)
  {
    0 <= i && i + 2 <= |s| && s[i] == ',' && s[i + 1] == ' '
  }

  /** s contains the separator somewhere. */
  predicate HasSep(s: string)
  {
    exists i :: 0 <= i < |s| && SepAt(s, i)
  }

  /** The first index at or after j where the separator starts, or |s| when there is none. */
  function FindSep(s: string, j: nat): (i: nat)
    requires j <= |s|
    ensures j <= i <= |s|
    ensures i < |s| ==> SepAt(s, i)
    ensures forall k :: j <= k < i ==> !SepAt(s, k)
    ensures i == |s| ==> forall k :: j <= k ==> !SepAt(s, k)
    decreases |s| - j
  {
    if j + 2 > |s| then |s|
    else if SepAt(s, j) then j
    else FindSep(s, j + 1)
  }

  /** Python's `sep.join(parts)` with sep = ", ". */
  function Join(parts: seq<string>): string
  {
    if parts == [] then ""
    else if |parts| == 1 then parts[0]
    else parts[0] + ", " + Join(parts[1..])
  }

  /**
   * Python's `s.split(", ")`: cut at every occurrence of the separator, scanning left to
   * right without overlap. The empty string gives one empty piece.
   */
  function Split(s: string): (parts: seq<string>)
    ensures |parts| >= 1
    ensures Join(parts) == s
    ensures forall p :: p in parts ==> !HasSep(p)
    decreases |s|
  {
    var i := FindSep(s, 0);
    if i == |s| then
      [s]
    else
      var head, tail := s[..i], s[i + 2..];
      assert !HasSep(head) by {
        forall k | SepAt(head, k) ensures false {
          assert SepAt(s, k);
        }
      }
      assert s == head + ", " + tail;
      [head] + Split(tail)
  }

  /** The first occurrence of the separator in p + ", " + rest is the one between them. */
  lemma FirstSepOfJoin(p: string, rest: string)
    requires !HasSep(p)
    ensures FindSep(p + ", " + rest, 0) == |p|
  {
    var s := p + ", " + rest;
    assert SepAt(s, |p|);
    forall k | 0 <= k < |p| ensures !SepAt(s, k) {
      if k + 2 <= |p| {
        assert !SepAt(p, k);
      }
    }
  }

  /** Splitting undoes joining, as long as no piece contains the separator. */
  lemma {:induction false} SplitJoin(parts: seq<string>)
    requires parts != []
    requires forall p :: p in parts ==> !HasSep(p)
    ensures Split(Join(parts)) == parts
    decreases |parts|
  {
    if |parts| == 1 {
      assert Join(parts) == parts[0];
      assert parts[0] in parts;
      assert FindSep(parts[0], 0) == |parts[0]|;
    } else {
      var p, rest := parts[0], Join(parts[1..]);
      var s := p + ", " + rest;
      FirstSepOfJoin(p, rest);
      assert s[..|p|] == p;
      assert s[|p| + 2..] == rest;
      SplitJoin(parts[1..]);
    }
  }

  /**
   * The lambda applied to every order: a string is split on ", ";
   * any other value (NULL) becomes the empty order.
   */
  function Tokenise(v: OrderValue): (t: seq<Item>)
    ensures v.Null? ==> t == []
    ensures v.Text? ==> |t| >= 1 && Join(t) == v.value
    ensures forall x :: x in t ==> !HasSep(x)
  {
    match v
    case Null => []
    case Text(s) => Split(s)
  }

  /** The column of transactions: one per order, in order. */
  function Transactions(orders: seq<OrderValue>): (ts: seq<seq<Item>>)
    ensures |ts| == |orders|
    ensures forall r :: 0 <= r < |orders| ==> ts[r] == Tokenise(orders[r])
  {
    seq(|orders|, r requires 0 <= r < |orders| => Tokenise(orders[r]))
  }
}
