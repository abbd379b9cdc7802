/** Radix sort from scripts/sort-algorithms.js (`radixSort`,
    `countingSortByDigit`): least-significant-digit first, one stable
    counting sort per decimal digit of the largest value. Values are read
    with `getValue` and written back with `setValue`, so neither counter
    moves. Digits are those of non-negative integers; the page only ever
    sorts values from 1 to 100. */
module RadixSort {
  import opened Orders
  import opened Accessor

  /** 10^k, `Math.pow(10, k)`. */
  function Pow10(k: nat): (p: nat)
    ensures p >= 1
  {
    if k == 0 then 1 else 10 * Pow10(k - 1)
  }

  /** Decimal digit d of v: drop d digits, keep the last one. For v >= 0
      this is `Math.floor(v / Math.pow(10, d)) % 10`, as DigitPlaceValue
      shows. */
  function Digit(v: int, d: nat): (e: int)
    ensures 0 <= e < 10
    decreases d
  {
    if d == 0 then v % 10 else Digit(v / 10, d - 1)
  }

  /** The values of a whose digit d is b, in their order in a. */
  function Bucket(a: seq<int>, d: nat, b: int): (r: seq<int>)
    ensures |r| <= |a|
  {
    if |a| == 0 then []
    else if Digit(a[0], d) == b then [a[0]] + Bucket(a[1..], d, b)
    else Bucket(a[1..], d, b)
  }

  /** Every value in bucket b has digit b. */
  lemma {:induction false} BucketDigits(a: seq<int>, d: nat, b: int)
    ensures forall k :: 0 <= k < |Bucket(a, d, b)| ==> Digit(Bucket(a, d, b)[k], d) == b
    decreases |a|
  {
    if |a| > 0 {
      BucketDigits(a[1..], d, b);
      var head := if Digit(a[0], d) == b then [a[0]] else [];
      var r := Bucket(a, d, b);
      assert r == head + Bucket(a[1..], d, b);
      forall k | 0 <= k < |r|
        ensures Digit(r[k], d) == b
      {
        if k >= |head| {
          assert r[k] == Bucket(a[1..], d, b)[k - |head|];
        }
      }
    }
  }

  /** How many values of a have digit d below b. */
  function Below(a: seq<int>, d: nat, b: nat): nat {
    if b == 0 then 0 else Below(a, d, b - 1) + |Bucket(a, d, b - 1)|
  }

  /** The buckets for digits lo, lo+1, ..., 9, one after the other. */
  function Buckets(a: seq<int>, d: nat, lo: nat): seq<int>
    decreases 10 - lo
  {
    if lo >= 10 then [] else Bucket(a, d, lo) + Buckets(a, d, lo + 1)
  }

  /** What one counting-sort pass on digit d must produce: every bucket in
      digit order, each in its original order. */
  function ByDigit(a: seq<int>, d: nat): seq<int> {
    Buckets(a, d, 0)
  }

  predicate NonNegative(a: seq<int>) {
    forall k :: 0 <= k < |a| ==> 0 <= a[k]
  }

  // ---------------------------------------------------------------------
  // Buckets

  lemma {:induction false} BucketAppend(p: seq<int>, q: seq<int>, d: nat, b: int)
    ensures Bucket(p + q, d, b) == Bucket(p, d, b) + Bucket(q, d, b)
    decreases |p|
  {
    if |p| == 0 {
      assert p + q == q;
    } else {
      assert (p + q)[1..] == p[1..] + q;
      BucketAppend(p[1..], q, d, b);
    }
  }

  lemma {:induction false} BelowAppend(p: seq<int>, q: seq<int>, d: nat, b: nat)
    ensures Below(p + q, d, b) == Below(p, d, b) + Below(q, d, b)
    decreases b
  {
    if b > 0 {
      var c := b - 1;
      BelowAppend(p, q, d, c);
      BucketSizeAppend(p, q, d, c);
      assert Below(p + q, d, b) == Below(p + q, d, c) + |Bucket(p + q, d, c)|;
      assert Below(p, d, b) == Below(p, d, c) + |Bucket(p, d, c)|;
      assert Below(q, d, b) == Below(q, d, c) + |Bucket(q, d, c)|;
    }
  }

  lemma BucketSizeAppend(p: seq<int>, q: seq<int>, d: nat, b: int)
    ensures |Bucket(p + q, d, b)| == |Bucket(p, d, b)| + |Bucket(q, d, b)|
  {
    BucketAppend(p, q, d, b);
  }

  lemma {:induction false} BelowSingle(x: int, d: nat, b: nat)
    requires b <= 10
    ensures Below([x], d, b) == if Digit(x, d) < b then 1 else 0
    decreases b
  {
    if b > 0 {
      BelowSingle(x, d, b - 1);
      assert [x][1..] == [];
    }
  }

  /** Every value has some digit, so the ten buckets hold all of a. */
  lemma {:induction false} BelowAll(a: seq<int>, d: nat)
    ensures Below(a, d, 10) == |a|
    decreases |a|
  {
    if |a| == 0 {
      BelowEmpty(a, d, 10);
    } else {
      assert a == [a[0]] + a[1..];
      BelowAppend([a[0]], a[1..], d, 10);
      BelowSingle(a[0], d, 10);
      BelowAll(a[1..], d);
    }
  }

  lemma {:induction false} BelowEmpty(a: seq<int>, d: nat, b: nat)
    requires |a| == 0
    ensures Below(a, d, b) == 0
    decreases b
  {
    if b > 0 {
      BelowEmpty(a, d, b - 1);
    }
  }

  lemma {:induction false} BelowMonotone(a: seq<int>, d: nat, b: nat, c: nat)
    requires b <= c
    ensures Below(a, d, b) <= Below(a, d, c)
    decreases c
  {
    if b < c {
      BelowMonotone(a, d, b, c - 1);
    }
  }

  /** Bucket b of a sits at out[Below(b)..Below(b+1)]. */
  predicate Placed(a: seq<int>, d: nat, out: seq<int>, b: nat) {
    Below(a, d, b) <= Below(a, d, b + 1) <= |out| && out[Below(a, d, b)..Below(a, d, b + 1)] == Bucket(a, d, b)
  }

  /** Bucket b of a lies at a[Below(b)..Below(b+1)] once the buckets are
      laid out in digit order. */
  lemma {:induction false} BucketsFromSegments(a: seq<int>, d: nat, out: seq<int>, lo: nat)
    requires lo <= 10 && |out| == |a|
    requires forall b: nat :: lo <= b < 10 ==> Placed(a, d, out, b)
    ensures Below(a, d, lo) <= |out| && out[Below(a, d, lo)..] == Buckets(a, d, lo)
    decreases 10 - lo
  {
    BelowAll(a, d);
    BelowMonotone(a, d, lo, 10);
    if lo == 10 {
      assert out[Below(a, d, lo)..] == [];
    } else {
      BucketsFromSegments(a, d, out, lo + 1);
      assert Placed(a, d, out, lo);
      var x, y := Below(a, d, lo), Below(a, d, lo + 1);
      assert out[x..] == out[x..y] + out[y..];
    }
  }

  lemma {:induction false} BucketsAppend(p: seq<int>, q: seq<int>, d: nat, lo: nat)
    ensures multiset(Buckets(p + q, d, lo)) == multiset(Buckets(p, d, lo)) + multiset(Buckets(q, d, lo))
    decreases 10 - lo
  {
    if lo < 10 {
      BucketAppend(p, q, d, lo);
      BucketsAppend(p, q, d, lo + 1);
    }
  }

  lemma {:induction false} BucketsSingle(x: int, d: nat, lo: nat)
    ensures Buckets([x], d, lo) == if lo <= Digit(x, d) then [x] else []
    decreases 10 - lo
  {
    assert [x][1..] == [];
    if lo < 10 {
      BucketsSingle(x, d, lo + 1);
    }
  }

  /** A counting-sort pass permutes its input. */
  lemma {:induction false} ByDigitPermutation(a: seq<int>, d: nat)
    ensures multiset(ByDigit(a, d)) == multiset(a)
    decreases |a|
  {
    if |a| > 0 {
      assert a == [a[0]] + a[1..];
      BucketsAppend([a[0]], a[1..], d, 0);
      BucketsSingle(a[0], d, 0);
      ByDigitPermutation(a[1..], d);
    }
  }

  /** The values of s are ordered by digit d. */
  predicate DigitOrdered(s: seq<int>, d: nat) {
    forall i, j :: 0 <= i < j < |s| ==> Digit(s[i], d) <= Digit(s[j], d)
  }

  /** Every value of s has digit d at least lo. */
  predicate DigitsAtLeast(s: seq<int>, d: nat, lo: int) {
    forall i :: 0 <= i < |s| ==> lo <= Digit(s[i], d)
  }

  lemma {:induction false} BucketsDigits(a: seq<int>, d: nat, lo: nat)
    ensures DigitsAtLeast(Buckets(a, d, lo), d, lo) && DigitOrdered(Buckets(a, d, lo), d)
    decreases 10 - lo
  {
    if lo < 10 {
      BucketsDigits(a, d, lo + 1);
      BucketDigits(a, d, lo);
      ConcatDigitOrdered(Bucket(a, d, lo), Buckets(a, d, lo + 1), d, lo);
    }
  }

  /** A block of values with digit lo in front of a digit-ordered block of
      larger digits is digit-ordered. */
  lemma ConcatDigitOrdered(x: seq<int>, y: seq<int>, d: nat, lo: int)
    requires forall i :: 0 <= i < |x| ==> Digit(x[i], d) == lo
    requires DigitsAtLeast(y, d, lo + 1) && DigitOrdered(y, d)
    ensures DigitsAtLeast(x + y, d, lo) && DigitOrdered(x + y, d)
  {
    var z := x + y;
    forall i | 0 <= i < |z|
      ensures lo <= Digit(z[i], d)
    {
      if i >= |x| {
        assert z[i] == y[i - |x|];
      }
    }
    forall i, j | 0 <= i < j < |z|
      ensures Digit(z[i], d) <= Digit(z[j], d)
    {
      if j < |x| {
        assert z[i] == x[i] && z[j] == x[j];
      } else if i < |x| {
        assert z[i] == x[i] && z[j] == y[j - |x|];
      } else {
        assert z[i] == y[i - |x|] && z[j] == y[j - |x|];
      }
    }
  }

  /** A counting-sort pass orders the values by digit d. */
  lemma ByDigitOrdered(a: seq<int>, d: nat)
    ensures forall i, j :: 0 <= i < j < |ByDigit(a, d)| ==>
      Digit(ByDigit(a, d)[i], d) <= Digit(ByDigit(a, d)[j], d)
  {
    BucketsDigits(a, d, 0);
  }

  lemma {:induction false} BucketOfBucket(a: seq<int>, d: nat, c: int, b: int)
    ensures Bucket(Bucket(a, d, c), d, b) == if b == c then Bucket(a, d, c) else []
    decreases |a|
  {
    if |a| > 0 {
      BucketOfBucket(a[1..], d, c, b);
      var head := if Digit(a[0], d) == c then [a[0]] else [];
      BucketAppend(head, Bucket(a[1..], d, c), d, b);
      assert head == [] || head[1..] == [];
    }
  }

  lemma {:induction false} BucketOfBuckets(a: seq<int>, d: nat, lo: nat, b: int)
    requires 0 <= b < 10
    ensures Bucket(Buckets(a, d, lo), d, b) == if lo <= b then Bucket(a, d, b) else []
    decreases 10 - lo
  {
    if lo < 10 {
      BucketOfBuckets(a, d, lo + 1, b);
      BucketAppend(Bucket(a, d, lo), Buckets(a, d, lo + 1), d, b);
      BucketOfBucket(a, d, lo, b);
    }
  }

  /** A counting-sort pass is stable: the values sharing a digit keep
      their relative order. */
  lemma ByDigitStable(a: seq<int>, d: nat, b: int)
    requires 0 <= b < 10
    ensures Bucket(ByDigit(a, d), d, b) == Bucket(a, d, b)
  {
    BucketOfBuckets(a, d, 0, b);
  }

  // ---------------------------------------------------------------------
  // `countingSortByDigit`

  /** The count loop: count[b] is the size of bucket b. */
  method CountDigits(s: Helper, d: nat) returns (count: seq<int>)
    ensures |count| == 10
    ensures forall b :: 0 <= b < 10 ==> count[b] == |Bucket(s.a, d, b)|
  {
    var n := Length(s);
    count := seq(10, _ => 0);
    var i := 0;
    while i < n
      invariant 0 <= i <= n && |count| == 10
      invariant forall b :: 0 <= b < 10 ==> count[b] == |Bucket(s.a[..i], d, b)|
    {
      var value := GetValue(s, i);
      var digitValue := Digit(value, d);
      CountStep(s.a, d, i);
      count := count[digitValue := count[digitValue] + 1];
      i := i + 1;
    }
    assert s.a[..n] == s.a;
  }

  lemma CountStep(a: seq<int>, d: nat, i: nat)
    requires i < |a|
    ensures forall b :: 0 <= b < 10 ==>
      |Bucket(a[..i + 1], d, b)| == |Bucket(a[..i], d, b)| + if b == Digit(a[i], d) then 1 else 0
  {
    assert a[..i + 1] == a[..i] + [a[i]];
    forall b | 0 <= b < 10 {
      BucketAppend(a[..i], [a[i]], d, b);
    }
  }

  /** The prefix-sum loop: count[b] becomes the end of bucket b. */
  method PrefixSums(ghost a: seq<int>, d: nat, count: seq<int>) returns (c: seq<int>)
    requires |count| == 10
    requires forall b :: 0 <= b < 10 ==> count[b] == |Bucket(a, d, b)|
    ensures |c| == 10
    ensures forall b :: 0 <= b < 10 ==> c[b] == Below(a, d, b + 1)
  {
    c := count;
    var i := 1;
    while i < 10
      invariant 1 <= i <= 10 && |c| == 10
      invariant forall b :: 0 <= b < i ==> c[b] == Below(a, d, b + 1)
      invariant forall b :: i <= b < 10 ==> c[b] == |Bucket(a, d, b)|
    {
      c := c[i := c[i] + c[i - 1]];
      i := i + 1;
    }
  }

  /** The state of the output loop once a[j..] has been placed: count[b]
      is where the next value of bucket b goes, and the tail of bucket b's
      range holds the values of a[j..] with that digit, in order. */
  predicate FillState(a: seq<int>, d: nat, out: seq<int>, count: seq<int>, j: nat) {
    && j <= |a| == |out| && |count| == 10
    && forall b: nat :: b < 10 ==> FillSlot(a, d, out, count, j, b)
  }

  /** The part of FillState about bucket b: its range is
      out[Below(b)..Below(b+1)], the cursor has still |Bucket(a[..j])|
      free cells before it, and the cells from the cursor on hold the
      bucket's values from a[j..]. */
  predicate FillSlot(a: seq<int>, d: nat, out: seq<int>, count: seq<int>, j: nat, b: nat)
    requires j <= |a| && b < 10 == |count|
  {
    SlotShape(out, count[b], Below(a, d, b), Below(a, d, b + 1), |Bucket(a[..j], d, b)|, Bucket(a[j..], d, b))
  }

  /** A range out[lo..hi] whose cursor c lies `free` cells past lo and
      whose cells from c on hold `rest`. */
  predicate SlotShape(out: seq<int>, c: int, lo: int, hi: int, free: int, rest: seq<int>) {
    0 <= lo && 0 <= free && c == lo + free && c <= hi <= |out| && out[c..hi] == rest
  }

  /** Writing the cell just before the cursor moves the cursor back and
      puts the value in front of the range's contents. */
  lemma SlotPush(out: seq<int>, c: int, lo: int, hi: int, free: int, rest: seq<int>, v: int)
    requires SlotShape(out, c, lo, hi, free, rest) && 0 < free
    ensures SlotShape(out[c - 1 := v], c - 1, lo, hi, free - 1, [v] + rest)
  {
    assert out[c - 1 := v][c - 1..hi] == [v] + out[c..hi];
  }

  /** Writing outside a range's filled part leaves the range as it is. */
  lemma SlotWrite(out: seq<int>, c: int, lo: int, hi: int, free: int, rest: seq<int>, w: int, v: int)
    requires SlotShape(out, c, lo, hi, free, rest) && 0 <= w < |out| && (w < c || hi <= w)
    ensures SlotShape(out[w := v], c, lo, hi, free, rest)
  {
    assert out[w := v][c..hi] == out[c..hi];
  }

  lemma FillStart(a: seq<int>, d: nat, out: seq<int>, count: seq<int>)
    requires |out| == |a| && |count| == 10
    requires forall b :: 0 <= b < 10 ==> count[b] == Below(a, d, b + 1)
    ensures FillState(a, d, out, count, |a|)
  {
    assert a[..|a|] == a;
    BelowAll(a, d);
    forall b: nat | b < 10
      ensures FillSlot(a, d, out, count, |a|, b)
    {
      BelowMonotone(a, d, b + 1, 10);
    }
  }

  lemma FillDone(a: seq<int>, d: nat, out: seq<int>, count: seq<int>)
    requires FillState(a, d, out, count, 0)
    ensures out == ByDigit(a, d)
  {
    assert a[0..] == a;
    forall b: nat | b < 10
      ensures Placed(a, d, out, b)
    {
      assert FillSlot(a, d, out, count, 0, b);
      assert |Bucket(a[..0], d, b)| == 0;
    }
    BucketsFromSegments(a, d, out, 0);
  }

  /** Moving a[j-1] from the unplaced prefix to the placed suffix changes
      bucket b only when a[j-1] belongs to it. */
  lemma ShiftOne(a: seq<int>, d: nat, j: nat, b: int)
    requires 0 < j <= |a|
    ensures |Bucket(a[..j], d, b)| == |Bucket(a[..j - 1], d, b)| + if Digit(a[j - 1], d) == b then 1 else 0
    ensures Digit(a[j - 1], d) == b ==> Bucket(a[j - 1..], d, b) == [a[j - 1]] + Bucket(a[j..], d, b)
    ensures Digit(a[j - 1], d) != b ==> Bucket(a[j - 1..], d, b) == Bucket(a[j..], d, b)
  {
    assert a[..j] == a[..j - 1] + [a[j - 1]];
    BucketAppend(a[..j - 1], [a[j - 1]], d, b);
    assert a[j - 1..][1..] == a[j..];
  }

  /** Placing a[j-1] at the last free slot of its bucket. */
  lemma FillStep(a: seq<int>, d: nat, out: seq<int>, count: seq<int>, j: nat)
    requires FillState(a, d, out, count, j) && 0 < j
    ensures Below(a, d, Digit(a[j - 1], d)) < count[Digit(a[j - 1], d)] <= |out|
    ensures FillState(a, d, out[count[Digit(a[j - 1], d)] - 1 := a[j - 1]],
                      count[Digit(a[j - 1], d) := count[Digit(a[j - 1], d)] - 1], j - 1)
  {
    var e := Digit(a[j - 1], d);
    assert FillSlot(a, d, out, count, j, e);
    FillHit(a, d, out, count, j, e);
    var out' := out[count[e] - 1 := a[j - 1]];
    var count' := count[e := count[e] - 1];
    var j' := j - 1;
    forall b: nat | b < 10
      ensures FillSlot(a, d, out', count', j', b)
    {
      if b != e {
        assert FillSlot(a, d, out, count, j, b);
        FillMiss(a, d, out, count, j, e, b);
      }
    }
  }

  /** The slot written is the one just before bucket e's placed values. */
  lemma FillHit(a: seq<int>, d: nat, out: seq<int>, count: seq<int>, j: nat, e: nat)
    requires 0 < j <= |a| == |out| && |count| == 10 && e == Digit(a[j - 1], d)
    requires FillSlot(a, d, out, count, j, e)
    ensures Below(a, d, e) < count[e]
    ensures FillSlot(a, d, out[count[e] - 1 := a[j - 1]], count[e := count[e] - 1], j - 1, e)
  {
    ShiftOne(a, d, j, e);
    SlotPush(out, count[e], Below(a, d, e), Below(a, d, e + 1), |Bucket(a[..j], d, e)|, Bucket(a[j..], d, e), a[j - 1]);
  }

  /** Other buckets' ranges are disjoint from the slot written. */
  lemma FillMiss(a: seq<int>, d: nat, out: seq<int>, count: seq<int>, j: nat, e: nat, b: nat)
    requires 0 < j <= |a| == |out| && |count| == 10 && e == Digit(a[j - 1], d)
    requires b < 10 && b != e
    requires FillSlot(a, d, out, count, j, e) && Below(a, d, e) < count[e]
    requires FillSlot(a, d, out, count, j, b)
    ensures FillSlot(a, d, out[count[e] - 1 := a[j - 1]], count[e := count[e] - 1], j - 1, b)
  {
    SlotsApart(a, d, count[e], count[b], e, b);
    ShiftMiss(a, d, j, b);
    SlotMiss(out, count[e] - 1, a[j - 1], count[b], count[e := count[e] - 1][b],
             Below(a, d, b), Below(a, d, b + 1),
             |Bucket(a[..j], d, b)|, |Bucket(a[..j - 1], d, b)|, Bucket(a[j..], d, b), Bucket(a[j - 1..], d, b));
  }

  /** The cell before bucket e's cursor lies outside bucket b's filled
      part: below it when b comes later, at or past its end when b comes
      earlier. */
  lemma SlotsApart(a: seq<int>, d: nat, ce: int, cb: int, e: nat, b: nat)
    requires b != e && Below(a, d, e) < ce <= Below(a, d, e + 1) && Below(a, d, b) <= cb
    ensures ce - 1 < cb || Below(a, d, b + 1) <= ce - 1
  {
    if b < e {
      BelowMonotone(a, d, b + 1, e);
    } else {
      BelowMonotone(a, d, e + 1, b);
    }
  }

  /** SlotWrite, with the cursor, the free count and the contents given
      under other names. */
  lemma SlotMiss(out: seq<int>, w: int, v: int, c: int, c': int, lo: int, hi: int,
                 free: int, free': int, rest: seq<int>, rest': seq<int>)
    requires SlotShape(out, c, lo, hi, free, rest) && 0 <= w < |out| && (w < c || hi <= w)
    requires c' == c && free' == free && rest' == rest
    ensures SlotShape(out[w := v], c', lo, hi, free', rest')
  {
    SlotWrite(out, c, lo, hi, free, rest, w, v);
  }

  /** Moving a[j-1], whose digit is not b, from the unplaced prefix to the
      placed suffix leaves bucket b's two parts as they were. */
  lemma ShiftMiss(a: seq<int>, d: nat, j: nat, b: int)
    requires 0 < j <= |a| && Digit(a[j - 1], d) != b
    ensures |Bucket(a[..j], d, b)| == |Bucket(a[..j - 1], d, b)|
    ensures Bucket(a[j - 1..], d, b) == Bucket(a[j..], d, b)
  {
    ShiftOne(a, d, j, b);
  }

  /** The output loop, from the last value back to the first. */
  method FillOutput(s: Helper, d: nat, count: seq<int>) returns (output: seq<int>)
    requires |count| == 10
    requires forall b :: 0 <= b < 10 ==> count[b] == Below(s.a, d, b + 1)
    ensures output == ByDigit(s.a, d)
  {
    var n := Length(s);
    output := seq(n, _ => 0);
    var c := count;
    FillStart(s.a, d, output, c);
    var i := n as int - 1;
    while i >= 0
      invariant -1 <= i < n && FillState(s.a, d, output, c, i + 1)
    {
      var value := GetValue(s, i);
      var digitValue := Digit(value, d);
      FillStep(s.a, d, output, c, i + 1);
      var position := c[digitValue] - 1;
      output := output[position := value];
      c := c[digitValue := c[digitValue] - 1];
      i := i - 1;
    }
    FillDone(s.a, d, output, c);
  }

  /** The copy-back loop: `setValue(i, output[i])` for every i. */
  method WriteAll(s: Helper, output: seq<int>) returns (t: Helper)
    requires |output| == |s.a|
    ensures t.a == output && t.tags == s.tags
    ensures t.comparisons == s.comparisons && t.swaps == s.swaps
  {
    var n := Length(s);
    t := s;
    var i := 0;
    while i < n
      invariant 0 <= i <= n && |t.a| == n
      invariant t.a == output[..i] + s.a[i..]
      invariant t.tags == s.tags && t.comparisons == s.comparisons && t.swaps == s.swaps
    {
      t := SetValue(t, i, output[i]);
      assert output[..i + 1] + s.a[i + 1..] == (output[..i] + s.a[i..])[i := output[i]];
      i := i + 1;
    }
    assert output[..n] == output;
  }

  /** `countingSortByDigit(digit)`: the array becomes its stable ordering
      by that digit. */
  method CountingSortByDigit(s: Helper, digit: nat) returns (t: Helper)
    requires NonNegative(s.a)
    ensures t.a == ByDigit(s.a, digit) && t.tags == s.tags
    ensures t.comparisons == s.comparisons && t.swaps == s.swaps
  {
    var count := CountDigits(s, digit);
    count := PrefixSums(s.a, digit, count);
    var output := FillOutput(s, digit, count);
    ByDigitPermutation(s.a, digit);
    assert |output| == |multiset(output)| == |multiset(s.a)| == |s.a|;
    t := WriteAll(s, output);
  }

  // ---------------------------------------------------------------------
  // `radixSort`

  /** The values ordered by their k lowest decimal digits. */
  predicate SortedByKey(a: seq<int>, k: nat) {
    forall i, j :: 0 <= i < j < |a| ==> a[i] % Pow10(k) <= a[j] % Pow10(k)
  }

  lemma DivModUnique(v: int, m: int, q: int, r: int)
    requires m > 0 && 0 <= r < m && v == q * m + r
    ensures v % m == r && v / m == q
  {
    var q', r' := v / m, v % m;
    assert (q - q') * m == r' - r;
    if q > q' {
      MulAtLeast(q - q', m);
    } else if q < q' {
      MulAtLeast(q' - q, m);
    }
  }

  lemma MulAtLeast(x: int, m: int)
    requires x >= 1 && m > 0
    ensures x * m >= m
  {
  }

  /** Digit d is the place value of 10^d: the quotient by 10^d, modulo
      10. */
  lemma {:induction false} DigitPlaceValue(v: int, d: nat)
    ensures Digit(v, d) == v / Pow10(d) % 10
    decreases d
  {
    if d > 0 {
      var p := Pow10(d - 1);
      DigitPlaceValue(v / 10, d - 1);
      var q2, r2 := v / 10 / p, v / 10 % p;
      assert v == q2 * (10 * p) + (10 * r2 + v % 10) by {
        assert v / 10 == q2 * p + r2;
        assert v == 10 * (v / 10) + v % 10;
      }
      DivModUnique(v, 10 * p, q2, 10 * r2 + v % 10);
    }
  }

  /** The k+1 lowest digits are digit k followed by the k lowest ones. */
  lemma LowSplit(v: int, k: nat)
    ensures v % Pow10(k + 1) == Digit(v, k) * Pow10(k) + v % Pow10(k)
  {
    DigitPlaceValue(v, k);
    LowSplitArith(v, Pow10(k));
  }

  /** The same split for any positive place value p. */
  lemma LowSplitArith(v: int, p: int)
    requires p > 0
    ensures v % (10 * p) == v / p % 10 * p + v % p
  {
    var q, r := v / p, v % p;
    var hi, e := q / 10, q % 10;
    assert v == q * p + r;
    SplitProduct(hi, e, p);
    assert v == hi * (10 * p) + (e * p + r);
    DigitTimesPlace(e, p);
    DivModUnique(v, 10 * p, hi, e * p + r);
  }

  lemma SplitProduct(hi: int, e: int, p: int)
    ensures (hi * 10 + e) * p == hi * (10 * p) + e * p
  {
  }

  lemma DigitTimesPlace(e: int, p: int)
    requires 0 <= e < 10 && p > 0
    ensures 0 <= e * p <= 9 * p
  {
  }

  lemma {:induction false} BucketKeySorted(a: seq<int>, d: nat, b: int, k: nat)
    requires SortedByKey(a, k)
    ensures SortedByKey(Bucket(a, d, b), k)
    decreases |a|
  {
    if |a| > 0 {
      var rest := a[1..];
      assert SortedByKey(rest, k) by {
        forall i, j | 0 <= i < j < |rest|
          ensures rest[i] % Pow10(k) <= rest[j] % Pow10(k)
        {
          assert rest[i] == a[i + 1] && rest[j] == a[j + 1];
        }
      }
      BucketKeySorted(rest, d, b, k);
      assert forall i :: 0 <= i < |rest| ==> rest[i] == a[i + 1];
      BucketKeyBound(rest, d, b, k, a[0] % Pow10(k));
      var head := if Digit(a[0], d) == b then [a[0]] else [];
      ConcatSortedByKey(head, Bucket(rest, d, b), k);
    }
  }

  /** A lower bound on the keys of a holds for every bucket of a. */
  lemma {:induction false} BucketKeyBound(a: seq<int>, d: nat, b: int, k: nat, lo: int)
    requires forall i :: 0 <= i < |a| ==> lo <= a[i] % Pow10(k)
    ensures forall i :: 0 <= i < |Bucket(a, d, b)| ==> lo <= Bucket(a, d, b)[i] % Pow10(k)
    decreases |a|
  {
    if |a| > 0 {
      var rest := a[1..];
      assert forall i :: 0 <= i < |rest| ==> rest[i] == a[i + 1];
      BucketKeyBound(rest, d, b, k, lo);
      var head := if Digit(a[0], d) == b then [a[0]] else [];
      var r := Bucket(rest, d, b);
      assert forall i :: 0 <= i < |head + r| ==> (head + r)[i] == if i < |head| then a[0] else r[i - |head|];
    }
  }

  lemma ConcatSortedByKey(x: seq<int>, y: seq<int>, k: nat)
    requires SortedByKey(x, k) && SortedByKey(y, k)
    requires forall i, j :: 0 <= i < |x| && 0 <= j < |y| ==> x[i] % Pow10(k) <= y[j] % Pow10(k)
    ensures SortedByKey(x + y, k)
  {
    var z := x + y;
    forall i, j | 0 <= i < j < |z|
      ensures z[i] % Pow10(k) <= z[j] % Pow10(k)
    {
      if j < |x| {
        assert z[i] == x[i] && z[j] == x[j];
      } else if i >= |x| {
        assert z[i] == y[i - |x|] && z[j] == y[j - |x|];
      } else {
        assert z[i] == x[i] && z[j] == y[j - |x|];
      }
    }
  }

  /** A bucket already ordered by the k lowest digits, all of whose values
      have digit k equal to b, is ordered by the k+1 lowest digits. */
  lemma SameDigitRefines(x: seq<int>, k: nat, b: int)
    requires SortedByKey(x, k)
    requires forall i :: 0 <= i < |x| ==> Digit(x[i], k) == b
    ensures SortedByKey(x, k + 1)
  {
    forall i, j | 0 <= i < j < |x|
      ensures x[i] % Pow10(k + 1) <= x[j] % Pow10(k + 1)
    {
      LowSplit(x[i], k);
      LowSplit(x[j], k);
    }
  }

  /** A value whose digit k is below another's has smaller k+1 lowest
      digits. */
  lemma LowerDigitSmallerKey(v: int, w: int, k: nat)
    requires Digit(v, k) < Digit(w, k)
    ensures v % Pow10(k + 1) < w % Pow10(k + 1)
  {
    LowSplit(v, k);
    LowSplit(w, k);
    PlaceValueOrder(Digit(v, k), Digit(w, k), v % Pow10(k), w % Pow10(k), Pow10(k));
  }

  lemma PlaceValueOrder(x: int, y: int, rx: int, ry: int, p: int)
    requires x < y && p > 0 && 0 <= rx < p && 0 <= ry
    ensures x * p + rx < y * p + ry
  {
    assert (y - x) * p >= p by {
      MulAtLeast(y - x, p);
    }
    assert y * p - x * p == (y - x) * p;
  }

  lemma {:induction false} BucketsKeySorted(a: seq<int>, k: nat, lo: nat)
    requires SortedByKey(a, k)
    ensures SortedByKey(Buckets(a, k, lo), k + 1)
    decreases 10 - lo
  {
    if lo < 10 {
      var x, y := Bucket(a, k, lo), Buckets(a, k, lo + 1);
      BucketKeySorted(a, k, lo, k);
      BucketDigits(a, k, lo);
      SameDigitRefines(x, k, lo);
      BucketsKeySorted(a, k, lo + 1);
      BucketsDigits(a, k, lo + 1);
      forall i, j | 0 <= i < |x| && 0 <= j < |y|
        ensures x[i] % Pow10(k + 1) <= y[j] % Pow10(k + 1)
      {
        LowerDigitSmallerKey(x[i], y[j], k);
      }
      ConcatSortedByKey(x, y, k + 1);
    }
  }

  /** The inductive step of LSD radix sort: a stable pass on digit k turns
      an order on the k lowest digits into one on the k+1 lowest. */
  lemma ByDigitRefines(a: seq<int>, k: nat)
    requires SortedByKey(a, k)
    ensures SortedByKey(ByDigit(a, k), k + 1)
  {
    BucketsKeySorted(a, k, 0);
  }

  /** Number of decimal digits of m, `Math.floor(Math.log10(m)) + 1`; no
      digit at all when m is not positive, where the logarithm is -Infinity
      or NaN and the pass loop never runs. */
  function DigitCount(m: int): (c: nat)
    ensures m <= 0 ==> c == 0
    ensures m > 0 ==> 0 < c && Pow10(c - 1) <= m < Pow10(c)
  {
    if m <= 0 then 0 else 1 + DigitCount(m / 10)
  }

  /** `Math.max(...array)`. */
  function MaxValue(a: seq<int>): (m: int)
    requires |a| > 0
    ensures m in a && forall k :: 0 <= k < |a| ==> a[k] <= m
  {
    if |a| == 1 then a[0]
    else
      var rest := MaxValue(a[1..]);
      if a[0] < rest then rest else a[0]
  }

  /** Once the key covers every digit of the largest value, ordering by
      the key is ordering by value. */
  lemma KeyCoversValue(a: seq<int>, k: nat, hi: int)
    requires SortedByKey(a, k) && NonNegative(a)
    requires forall i :: 0 <= i < |a| ==> a[i] <= hi
    requires hi < Pow10(k)
    ensures Sorted(a)
  {
    forall i | 0 <= i < |a|
      ensures a[i] % Pow10(k) == a[i]
    {
      DivModUnique(a[i], Pow10(k), 0, a[i]);
    }
  }

  /** `radixSort`'s pass loop: after passes on digits 0 .. passes-1 the
      values are ordered by their `passes` lowest digits. */
  method RadixPasses(s: Helper, passes: nat) returns (t: Helper)
    requires NonNegative(s.a)
    ensures |t.a| == |s.a| && multiset(t.a) == multiset(s.a)
    ensures SortedByKey(t.a, passes)
    ensures t.tags == s.tags && t.comparisons == s.comparisons && t.swaps == s.swaps
  {
    t := s;
    var digit := 0;
    while digit < passes
      invariant digit <= passes && |t.a| == |s.a|
      invariant multiset(t.a) == multiset(s.a) && NonNegative(t.a)
      invariant SortedByKey(t.a, digit)
      invariant t.tags == s.tags && t.comparisons == s.comparisons && t.swaps == s.swaps
    {
      t := RadixPass(t, digit);
      PermutationBoundedBelow(s.a, t.a, 0);
      digit := digit + 1;
    }
  }

  /** One pass of the loop, with what it does to the key order. */
  method RadixPass(s: Helper, digit: nat) returns (t: Helper)
    requires NonNegative(s.a) && SortedByKey(s.a, digit)
    ensures |t.a| == |s.a| && multiset(t.a) == multiset(s.a)
    ensures SortedByKey(t.a, digit + 1)
    ensures t.tags == s.tags && t.comparisons == s.comparisons && t.swaps == s.swaps
  {
    t := CountingSortByDigit(s, digit);
    ByDigitRefines(s.a, digit);
    ByDigitPermutation(s.a, digit);
    assert |t.a| == |multiset(t.a)| == |multiset(s.a)| == |s.a|;
  }

  /** `radixSort`: one counting-sort pass per digit of the largest value,
      then every cell is marked sorted. */
  method RadixSort(s: Helper) returns (t: Helper)
    requires NonNegative(s.a)
    ensures Sorted(t.a) && multiset(t.a) == multiset(s.a)
    ensures t.comparisons == s.comparisons && t.swaps == s.swaps
    ensures AllMarkedSorted(t)
  {
    var n := Length(s);
    var maxDigits := if n == 0 then 0 else DigitCount(MaxValue(s.a));
    t := RadixPasses(s, maxDigits);
    if n > 0 {
      var hi := MaxValue(s.a);
      PermutationBoundedAbove(s.a, t.a, hi);
      PermutationBoundedBelow(s.a, t.a, 0);
      KeyCoversValue(t.a, maxDigits, hi);
    }
    t := MarkAllSorted(t);
  }
}
