/** The few JavaScript number and array built-ins the tables use, on integers. */
module JsMath {
  /** `Math.max` of two integers. */
  function Max(a: int, b: int): (r: int)
    ensures a <= r && b <= r && (r == a || r == b)
  {
    if a < b then b else a
  }

  /** `Math.min` of two integers. */
  function Min(a: int, b: int): (r: int)
    ensures r <= a && r <= b && (r == a || r == b)
  {
    if a < b then a else b
  }

  /** `Math.ceil(a / b)` for a non-negative `a` and a positive `b`: the least
      multiple count that reaches `a`. */
  function CeilDiv(a: nat, b: nat): (c: nat)
    requires b > 0
    ensures a <= c * b
    ensures c == 0 || (c - 1) * b < a
  {
    var c := (a + b - 1) / b;
    assert c * b + (a + b - 1) % b == a + b - 1;
    assert (c - 1) * b == c * b - b;
    c
  }

  /** `Math.floor(a / b)` is Dafny's division on non-negative `a` and
      positive `b`: `m * b <= a` exactly when `m` is at most the quotient. */
  lemma FloorDivBound(m: int, a: nat, b: nat)
    requires b > 0
    ensures m * b <= a <==> m <= a / b
  {
    var q := a / b;
    assert q * b <= a < (q + 1) * b by {
      assert a == q * b + a % b;
      assert (q + 1) * b == q * b + b;
    }
    if m * b <= a {
      MulStrict(m, q + 1, b);
    }
    if m <= q {
      MulMono(m, q, b);
    }
  }

  lemma MulMono(x: int, y: int, b: nat)
    requires x <= y
    ensures x * b <= y * b
  {
    assert y * b - x * b == (y - x) * b;
  }

  lemma MulStrict(x: int, y: int, b: nat)
    requires x * b < y * b
    ensures x < y
  {
    if y <= x {
      MulMono(y, x, b);
    }
  }

  /** The ceiling exceeds the floor by one exactly when `b` does not divide `a`. */
  lemma CeilIsFloorOrNext(a: nat, b: nat)
    requires b > 0
    ensures CeilDiv(a, b) == (if a % b == 0 then a / b else a / b + 1)
  {
    var c: int := CeilDiv(a, b);
    var q := a / b;
    var e := if a % b == 0 then q else q + 1;
    assert a == q * b + a % b;
    assert (e - 1) * b < a <= e * b by {
      assert (q + 1) * b == q * b + b;
      assert (q - 1) * b == q * b - b;
    }
    assert e <= c by {
      if c < e {
        MulMono(c, e - 1, b);
      }
    }
    assert c <= e by {
      if e < c {
        MulMono(e, c - 1, b);
      }
    }
  }

  /** `Array.prototype.slice(start, end)` for non-negative arguments: both
      ends are clamped to the length, and a reversed range is empty. */
  function Slice<T>(xs: seq<T>, start: nat, end: nat): (r: seq<T>)
    ensures |r| == Max(0, Min(end, |xs|) - Min(start, |xs|))
    ensures forall k :: 0 <= k < |r| ==> r[k] == xs[start + k]
  {
    var from := Min(start, |xs|);
    var to := Min(end, |xs|);
    if from < to then xs[from..to] else []
  }
}
