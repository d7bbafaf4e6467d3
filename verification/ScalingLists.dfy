/** Scaling lists (ITU-T H.264, section 7.3.2.1.1.1) as the standard writes them, and exactly which of them the program
    reads: it turns the sign of every delta round, so a list may end for it where it does not end, and the reverse. */
module ScalingLists {
  import opened Bytes
  import opened BitReader
  import opened Sps
  import opened SyntaxElements

  // ----- What the standard writes -----

  function Sum(ds: seq<int>): int {
    if |ds| == 0 then 0 else ds[0] + Sum(ds[1..])
  }

  /** The deltas of one list: it ends when it is full, or with the delta that brings the scale, 8 at first, to 0. */
  predicate LegalList(ds: seq<int>, size: nat) {
    && 0 < |ds| <= size
    && (forall i | 0 <= i < |ds| :: -128 <= ds[i] <= 127)
    && (forall k | 0 < k < |ds| :: (8 + Sum(ds[..k])) % 256 != 0)
    && (|ds| < size ==> (8 + Sum(ds)) % 256 == 0)
  }

  /** The lists of a scaling matrix, each present or not. */
  type Matrix = seq<Option<seq<int>>>

  /** The length of list `i` in Table 7-2: six lists of 16, the others of 64. */
  function StandardSize(i: nat): nat { if i <= 5 then 16 else 64 }

  predicate LegalMatrix(m: Matrix, count: nat) {
    |m| == count && forall i | 0 <= i < |m| :: m[i].Some? ==> LegalList(m[i].value, StandardSize(i))
  }

  function WriteEntry(e: Option<seq<int>>, rest: seq<bool>): seq<bool> {
    if e.None? then Flag(false, rest) else Flag(true, Ses(e.value, rest))
  }

  function WriteLists(m: Matrix, rest: seq<bool>): seq<bool> {
    if |m| == 0 then rest else WriteEntry(m[0], WriteLists(m[1..], rest))
  }

  function WriteMatrix(m: Option<Matrix>, rest: seq<bool>): seq<bool> {
    if m.None? then Flag(false, rest) else Flag(true, WriteLists(m.value, rest))
  }

  // ----- One list -----

  /** No delta but the last brings the program's scale, which goes the other way, to 0. */
  predicate NoEarlyEnd(ds: seq<int>, scale: int) {
    forall k | 0 < k < |ds| :: (scale - Sum(ds[..k])) % 256 != 0
  }

  /** How the program fares with a list, delta by delta. */
  predicate EndsTogether(ds: seq<int>, size: nat, scale: int) {
    if |ds| == 0 then size == 0
    else if size == 0 then false
    else
      var next := RemTrunc256(scale - ds[0]);
      if next == 0 then |ds| == 1 else EndsTogether(ds[1..], size - 1, next)
  }

  lemma {:induction false} RestShorter(s: seq<bool>, size: nat, last: int, next: int)
    ensures var r := TakeScalingList(s, size, last, next);
            r.Ok? ==> |r.value.1| <= |s| && (size > 0 && next != 0 ==> |r.value.1| < |s|)
    decreases size
  {
    hide SeValue, WrapI32, RemTrunc256;
    if size > 0 {
      if next == 0 {
        RestShorter(s, size - 1, 8, 0);
      } else if TakeSe(s).Ok? {
        UeShortens(s);
        var (delta, rest) := TakeSe(s).value;
        var next' := RemTrunc256(WrapI32(last + delta));
        RestShorter(rest, size - 1, if next' == 0 then 8 else next', next');
      }
    }
  }

  lemma UeShortens(s: seq<bool>)
    ensures TakeUe(s).Ok? ==> |TakeUe(s).value.1| < |s|
  {
    hide UeValue, SuffixWidth, LeadingZeros;
  }

  lemma {:induction false} SesLonger(ds: seq<int>, rest: seq<bool>)
    ensures |Ses(ds, rest)| >= |rest| + |ds|
  {
    hide SeCodeNum;
    if |ds| > 0 { SesLonger(ds[1..], rest); }
  }

  lemma {:induction false} SkipsRest(s: seq<bool>, size: nat, last: int)
    ensures TakeScalingList(s, size, last, 0) == Ok(((), s))
  {
    if size > 0 { SkipsRest(s, size - 1, 8); }
  }

  predicate Deltas(ds: seq<int>) { forall i | 0 <= i < |ds| :: -128 <= ds[i] <= 127 }

  lemma NextScale(scale: int, delta: int)
    requires -256 < scale < 256 && -128 <= delta <= 127
    ensures var next := RemTrunc256(WrapI32(scale - delta));
            next == RemTrunc256(scale - delta) && -256 < next < 256
    ensures RemTrunc256(scale - delta) == 0 <==> (scale - delta) % 256 == 0
    ensures (RemTrunc256(scale - delta) - (scale - delta)) % 256 == 0
  {
  }

  /** The program leaves a list where the writer did exactly when the two ends meet. */
  lemma {:induction false} ListFrom(ds: seq<int>, rest: seq<bool>, size: nat, scale: int)
    requires Deltas(ds) && scale != 0 && -256 < scale < 256
    ensures TakeScalingList(Ses(ds, rest), size, scale, scale) == Ok(((), rest)) <==> EndsTogether(ds, size, scale)
    decreases size
  {
    hide Se, TakeSe, WrapI32, RemTrunc256;
    if |ds| == 0 {
      RestShorter(rest, size, scale, scale);
    } else {
      SesLonger(ds, rest);
      if size > 0 {
        var tail := Ses(ds[1..], rest);
        ReadSe(ds[0], tail);
        NextScale(scale, ds[0]);
        if RemTrunc256(scale - ds[0]) == 0 {
          SkipsRest(tail, size - 1, 8);
          SesLonger(ds[1..], rest);
        } else {
          ListFrom(ds[1..], rest, size - 1, RemTrunc256(scale - ds[0]));
        }
      }
    }
  }

  lemma Congruent(a: int, b: int, x: int)
    requires (a - b) % 256 == 0
    ensures (a - x) % 256 == 0 <==> (b - x) % 256 == 0
  {
  }

  lemma SumOfPrefix(ds: seq<int>, k: nat)
    requires 0 < k <= |ds|
    ensures Sum(ds[..k]) == ds[0] + Sum(ds[1..][..k - 1])
  {
    assert ds[..k][1..] == ds[1..][..k - 1];
  }

  /** In closed form: no early end, and the list is full or ends where the program's scale reaches 0 too. */
  lemma {:induction false} EndsTogetherWhen(ds: seq<int>, size: nat, scale: int)
    requires Deltas(ds) && -256 < scale < 256
    ensures EndsTogether(ds, size, scale) <==>
            && |ds| <= size && NoEarlyEnd(ds, scale)
            && (|ds| < size ==> |ds| > 0 && (scale - Sum(ds)) % 256 == 0)
    decreases |ds|
  {
    hide RemTrunc256;
    if |ds| > 0 && size > 0 {
      var next, tail := RemTrunc256(scale - ds[0]), ds[1..];
      NextScale(scale, ds[0]);
      forall k: nat | 0 < k <= |ds|
        ensures (scale - Sum(ds[..k])) % 256 == 0 <==> (next - Sum(tail[..k - 1])) % 256 == 0
      {
        SumOfPrefix(ds, k);
        Congruent(next, scale - ds[0], Sum(tail[..k - 1]));
      }
      assert ds[..|ds|] == ds && tail[..|tail|] == tail && tail[..0] == [];
      if next == 0 {
        if |ds| > 1 { assert (scale - Sum(ds[..1])) % 256 == 0; }
      } else {
        EndsTogetherWhen(tail, size - 1, next);
        assert next % 256 != 0;
        assert NoEarlyEnd(ds, scale) ==> NoEarlyEnd(tail, next) by {
          forall k | 0 < k < |tail| ensures NoEarlyEnd(ds, scale) ==> (next - Sum(tail[..k])) % 256 != 0 {
            assert tail[..k] == tail[..k + 1 - 1];
            assert (scale - Sum(ds[..k + 1])) % 256 == 0 <==> (next - Sum(tail[..k + 1 - 1])) % 256 == 0;
          }
        }
        assert NoEarlyEnd(tail, next) ==> NoEarlyEnd(ds, scale);
      }
    }
  }

  /** What a list must be for the program: full, and no proper prefix of its deltas adds up to 8 modulo 256. */
  predicate ReadsWhole(ds: seq<int>, size: nat) {
    |ds| == size && forall k | 0 < k < |ds| :: Sum(ds[..k]) % 256 != 8
  }

  lemma ZeroAtEight(sum: int)
    ensures (8 - sum) % 256 == 0 <==> sum % 256 == 8
    ensures (8 + sum) % 256 == 0 ==> (8 - sum) % 256 != 0
  {
  }

  lemma NoEarlyEndAtEight(ds: seq<int>)
    ensures NoEarlyEnd(ds, 8) <==> forall k | 0 < k < |ds| :: Sum(ds[..k]) % 256 != 8
  {
    hide Sum;
    forall k | 0 < k < |ds| ensures (8 - Sum(ds[..k])) % 256 == 0 <==> Sum(ds[..k]) % 256 == 8 {
      ZeroAtEight(Sum(ds[..k]));
    }
  }

  /** A list the standard allows is read as it was written if and only if it meets that condition. */
  lemma ListReadsBack(ds: seq<int>, size: nat, rest: seq<bool>)
    requires LegalList(ds, size)
    ensures TakeScalingList(Ses(ds, rest), size, 8, 8) == Ok(((), rest)) <==> ReadsWhole(ds, size)
  {
    hide TakeScalingList, Ses, EndsTogether, Sum, NoEarlyEnd;
    assert Deltas(ds);
    ListFrom(ds, rest, size, 8);
    EndsTogetherWhen(ds, size, 8);
    NoEarlyEndAtEight(ds);
    ZeroAtEight(Sum(ds));
  }

  // ----- A matrix -----

  predicate EntryReadsWhole(e: Option<seq<int>>, size: nat) { e.Some? ==> ReadsWhole(e.value, size) }

  /** Reading the first `n` lists leaves off where writing them did. */
  predicate LeavesOffAt(m: Matrix, rest: seq<bool>, n: nat)
    requires n <= |m|
  {
    TakeScalingLists(WriteLists(m, rest), 0, n) == Ok(((), WriteLists(m[n..], rest)))
  }

  lemma OneList(s: seq<bool>, i: nat)
    ensures TakeScalingLists(s, i, i + 1) ==
            var (present, s1) :- TakeBit(s);
            if present then TakeScalingList(s1, ListSize(i), 8, 8) else Ok(((), s1))
  {
    hide TakeScalingList, TakeBit;
    if TakeBit(s).Ok? {
      var (present, s1) := TakeBit(s).value;
      if !present {
        Nothing(s1, i + 1);
      } else if TakeScalingList(s1, ListSize(i), 8, 8).Ok? {
        var (unit, s2) := TakeScalingList(s1, ListSize(i), 8, 8).value;
        assert unit == ();
        Nothing(s2, i + 1);
      }
    }
  }

  /** The same for list `i` alone. */
  lemma EntryReadsBack(e: Option<seq<int>>, i: nat, rest: seq<bool>)
    requires e.Some? ==> LegalList(e.value, StandardSize(i))
    ensures TakeScalingLists(WriteEntry(e, rest), i, i + 1) == Ok(((), rest)) <==> EntryReadsWhole(e, StandardSize(i))
  {
    hide TakeScalingList, TakeScalingLists, Ses, LegalList, ReadsWhole, TakeBit, Flag;
    OneList(WriteEntry(e, rest), i);
    if e.Some? {
      ReadFlag(true, Ses(e.value, rest));
      ListReadsBack(e.value, ListSize(i), rest);
    } else {
      ReadFlag(false, rest);
    }
  }

  /** Reading lists in two goes. */
  lemma {:induction false} ListsSplit(s: seq<bool>, i: nat, mid: nat, end: nat)
    requires i <= mid <= end
    ensures var first := TakeScalingLists(s, i, mid);
            TakeScalingLists(s, i, end) == if first.Err? then first else TakeScalingLists(first.value.1, mid, end)
    decreases mid - i
  {
    hide TakeScalingList, TakeBit;
    if i < mid && TakeBit(s).Ok? {
      var (present, s1) := TakeBit(s).value;
      if !present {
        ListsSplit(s1, i + 1, mid, end);
      } else if TakeScalingList(s1, ListSize(i), 8, 8).Ok? {
        ListsSplit(TakeScalingList(s1, ListSize(i), 8, 8).value.1, i + 1, mid, end);
      }
    }
  }

  lemma WriteFirst(m: Matrix, n: nat, rest: seq<bool>)
    requires n < |m|
    ensures WriteLists(m[n..], rest) == WriteEntry(m[n], WriteLists(m[n + 1..], rest))
  {
    assert m[n..][1..] == m[n + 1..];
  }

  /** The program keeps in step with the writer through the first `n` lists exactly when it reads each of them whole. */
  lemma {:induction false} ListsInStep(m: Matrix, rest: seq<bool>, n: nat)
    requires n <= |m| && forall i | 0 <= i < |m| :: m[i].Some? ==> LegalList(m[i].value, StandardSize(i))
    ensures (forall k: nat | k <= n :: LeavesOffAt(m, rest, k)) <==>
            forall i | 0 <= i < n :: EntryReadsWhole(m[i], StandardSize(i))
  {
    hide TakeScalingLists, WriteLists, WriteEntry, LegalList, EntryReadsWhole;
    if n == 0 {
      Nothing(WriteLists(m, rest), 0);
      assert m[0..] == m;
    } else {
      ListsInStep(m, rest, n - 1);
      ListsSplit(WriteLists(m, rest), 0, n - 1, n);
      WriteFirst(m, n - 1, rest);
      EntryReadsBack(m[n - 1], n - 1, WriteLists(m[n..], rest));
      if LeavesOffAt(m, rest, n - 1) {
        assert LeavesOffAt(m, rest, n) <==> EntryReadsWhole(m[n - 1], StandardSize(n - 1));
      }
      assert (forall k: nat | k <= n :: LeavesOffAt(m, rest, k)) <==>
             (forall k: nat | k <= n - 1 :: LeavesOffAt(m, rest, k)) && LeavesOffAt(m, rest, n);
      assert (forall i | 0 <= i < n :: EntryReadsWhole(m[i], StandardSize(i))) <==>
             (forall i | 0 <= i < n - 1 :: EntryReadsWhole(m[i], StandardSize(i)))
             && EntryReadsWhole(m[n - 1], StandardSize(n - 1));
    }
  }

  lemma Nothing(s: seq<bool>, i: nat)
    ensures TakeScalingLists(s, i, i) == Ok(((), s))
  {
  }

  /** Whether the program reads a matrix whole: eight lists, each of them whole. */
  predicate MatrixReadsWhole(m: Matrix) {
    |m| == 8 && forall i | 0 <= i < 8 :: EntryReadsWhole(m[i], StandardSize(i))
  }

  /** Reading the matrix stays in step list by list and ends where the matrix does. */
  ghost predicate MatrixInStep(m: Matrix, rest: seq<bool>) {
    && |m| >= LISTS_READ
    && (forall k: nat | k <= LISTS_READ :: LeavesOffAt(m, rest, k))
    && TakeScalingLists(WriteLists(m, rest), 0, LISTS_READ) == Ok(((), rest))
  }

  lemma {:induction false} ListsLonger(m: Matrix, rest: seq<bool>)
    ensures |WriteLists(m, rest)| >= |m| + |rest|
  {
    hide Ses;
    if |m| > 0 {
      ListsLonger(m[1..], rest);
      if m[0].Some? { SesLonger(m[0].value, WriteLists(m[1..], rest)); }
    }
  }

  /** A matrix the standard allows is read in step if and only if it has eight lists, as it has for every chroma format
      but 3, and each list present is full and has no proper prefix that adds up to 8 modulo 256. */
  lemma MatrixReadsInStep(m: Matrix, count: nat, rest: seq<bool>)
    requires LegalMatrix(m, count) && count >= LISTS_READ
    ensures MatrixInStep(m, rest) <==> MatrixReadsWhole(m)
  {
    ListsInStep(m, rest, LISTS_READ);
    hide TakeScalingLists, WriteLists, EntryReadsWhole, LegalList;
    ListsLonger(m[LISTS_READ..], rest);
    if |m| == LISTS_READ {
      assert m[LISTS_READ..] == [];
      assert WriteLists([], rest) == rest by { NoLists(rest); }
    }
    if forall k: nat | k <= LISTS_READ :: LeavesOffAt(m, rest, k) {
      assert LeavesOffAt(m, rest, LISTS_READ);
    }
  }

  lemma NoLists(rest: seq<bool>)
    ensures WriteLists([], rest) == rest
  {
  }

  // ----- Lists the program reads past -----

  /** A list that ends early for the standard and not for the program swallows bits of what follows. */
  lemma {:induction false} Overruns(ds: seq<int>, rest: seq<bool>, size: nat, scale: int)
    requires Deltas(ds) && |ds| < size && scale != 0 && -256 < scale < 256
    requires NoEarlyEnd(ds, scale) && (|ds| > 0 ==> (scale - Sum(ds)) % 256 != 0)
    ensures var r := TakeScalingList(Ses(ds, rest), size, scale, scale);
            r.Ok? ==> |r.value.1| < |rest|
    decreases size
  {
    hide Se, TakeSe, WrapI32, RemTrunc256;
    if |ds| == 0 {
      RestShorter(rest, size, scale, scale);
    } else {
      var tail := ds[1..];
      ReadSe(ds[0], Ses(tail, rest));
      NextScale(scale, ds[0]);
      var next := RemTrunc256(scale - ds[0]);
      forall j: nat | j < |ds| ensures (next - Sum(tail[..j])) % 256 != 0 {
        SumOfPrefix(ds, j + 1);
        assert tail[..j] == ds[1..][..j + 1 - 1];
        Congruent(next, scale - ds[0], Sum(tail[..j]));
        if j + 1 == |ds| { assert ds[..j + 1] == ds; }
      }
      assert tail[..0] == [] && tail[..|ds| - 1] == tail;
      Overruns(tail, rest, size - 1, next);
    }
  }

  /** Each list takes at least its flag. */
  lemma {:induction false} ListsTake(s: seq<bool>, i: nat, end: nat)
    requires i <= end
    ensures var r := TakeScalingLists(s, i, end);
            r.Ok? ==> |r.value.1| + (end - i) <= |s|
    decreases end - i
  {
    hide TakeScalingList;
    if i < end && |s| > 0 {
      if !s[0] {
        ListsTake(s[1..], i + 1, end);
      } else if TakeScalingList(s[1..], ListSize(i), 8, 8).Ok? {
        RestShorter(s[1..], ListSize(i), 8, 8);
        ListsTake(TakeScalingList(s[1..], ListSize(i), 8, 8).value.1, i + 1, end);
      }
    }
  }

  /** The matrix whose only list is number `i`. */
  function Alone(i: nat, ds: seq<int>): (m: Matrix)
    requires i < LISTS_READ
    ensures |m| == LISTS_READ
  {
    seq(LISTS_READ, k => if k == i then Some(ds) else None)
  }

  /** Among eight lists, one read past leaves too little behind it. */
  lemma AloneOverruns(i: nat, ds: seq<int>, rest: seq<bool>)
    requires i < LISTS_READ && LegalList(ds, StandardSize(i)) && |ds| < StandardSize(i) && NoEarlyEnd(ds, 8)
    ensures var r := TakeScalingLists(WriteLists(Alone(i, ds), rest), 0, LISTS_READ);
            r.Ok? ==> |r.value.1| < |rest|
  {
    hide TakeScalingLists, TakeScalingList, WriteLists, LegalList, NoEarlyEnd, Ses;
    var m := Alone(i, ds);
    var s, after := WriteLists(m, rest), WriteLists(m[i + 1..], rest);
    ListsInStep(m, rest, i);
    assert LeavesOffAt(m, rest, i);
    ListsSplit(s, 0, i, LISTS_READ);
    WriteFirst(m, i, rest);
    ListsSplit(WriteEntry(Some(ds), after), i, i + 1, LISTS_READ);
    OneList(WriteEntry(Some(ds), after), i);
    ReadFlag(true, Ses(ds, after));
    hide Flag, TakeBit;
    ZeroAtEight(Sum(ds));
    assert Deltas(ds) && (8 + Sum(ds)) % 256 == 0 by { LegalEnd(ds, StandardSize(i)); }
    Overruns(ds, after, ListSize(i), 8);
    var r := TakeScalingList(Ses(ds, after), ListSize(i), 8, 8);
    if r.Ok? { ListsTake(r.value.1, i + 1, LISTS_READ); }
    AbsentLists(m[i + 1..], rest);
  }

  lemma LegalEnd(ds: seq<int>, size: nat)
    requires LegalList(ds, size) && |ds| < size
    ensures Deltas(ds) && (8 + Sum(ds)) % 256 == 0
  {
  }

  lemma {:induction false} AbsentLists(m: Matrix, rest: seq<bool>)
    requires forall i | 0 <= i < |m| :: m[i].None?
    ensures |WriteLists(m, rest)| == |m| + |rest|
  {
    if |m| > 0 { AbsentLists(m[1..], rest); }
  }

  // ----- Misreadings that make up for each other -----

  /** Lists the program leaves where they end, though the standard may not allow them. */
  predicate AllEndTogether(m: Matrix, i: nat) {
    forall k | 0 <= k < |m| :: m[k].Some? ==> Deltas(m[k].value) && EndsTogether(m[k].value, ListSize(i + k), 8)
  }

  lemma {:induction false} ListsRead(m: Matrix, i: nat, rest: seq<bool>)
    requires AllEndTogether(m, i)
    ensures TakeScalingLists(WriteLists(m, rest), i, i + |m|) == Ok(((), rest))
    decreases |m|
  {
    hide TakeScalingList, Ses, EndsTogether, TakeBit, Flag;
    if |m| == 0 {
    } else {
      var after := WriteLists(m[1..], rest);
      ListsRead(m[1..], i + 1, rest);
      if m[0].Some? {
        ReadFlag(true, Ses(m[0].value, after));
        ListFrom(m[0].value, after, ListSize(i), 8);
      } else {
        ReadFlag(false, after);
      }
    }
  }

  lemma Logs()
    ensures Log2(1) == 0 && Log2(2) == 1 && Log2(3) == 1 && Log2(4) == 2
    ensures Log2(12) == 3 && Log2(17) == 4 && Log2(31) == 4
    ensures Pow2(0) == 1 && Pow2(1) == 2 && Pow2(2) == 4 && Pow2(3) == 8 && Pow2(4) == 16
  {
    assert Log2(3) == 1 && Log2(7) == 2;
    assert Log2(4) == 2 && Log2(8) == 3;
  }

  lemma Binaries()
    ensures Binary(0, 0) == [] && Binary(0, 1) == [false] && Binary(1, 1) == [true] && Binary(0, 2) == [false, false]
    ensures Binary(4, 3) == [true, false, false] && Binary(1, 4) == [false, false, false, true]
    ensures Binary(15, 4) == [true, true, true, true]
  {
    assert Binary(2, 2) == [true, false] by { assert Binary(1, 1) == [true]; }
    assert Binary(0, 3) == [false, false, false] by { assert Binary(0, 2) == [false, false]; }
    assert Binary(7, 3) == [true, true, true] by {
      assert Binary(1, 1) == [true];
      assert Binary(3, 2) == [true, true];
    }
  }

  lemma SmallCodes()
    ensures UeCode(0) == [true] && UeCode(1) == [false, true, false] && UeCode(2) == [false, true, true]
    ensures UeCode(3) == [false, false, true, false, false]
    ensures UeCode(11) == [false, false, false, true, true, false, false]
    ensures UeCode(16) == [false, false, false, false, true, false, false, false, true]
    ensures UeCode(30) == [false, false, false, false, true, true, true, true, true]
  {
    Logs();
    Binaries();
    hide Log2, Binary, Pow2;
  }

  lemma {:induction false} SesAppend(ds: seq<int>, rest: seq<bool>)
    ensures Ses(ds, rest) == Ses(ds, []) + rest
  {
    hide UeCode, SeCodeNum;
    if |ds| > 0 { SesAppend(ds[1..], rest); }
  }

  lemma {:induction false} ListsAppend(m: Matrix, rest: seq<bool>)
    ensures WriteLists(m, rest) == WriteLists(m, []) + rest
  {
    hide Ses;
    if |m| > 0 {
      ListsAppend(m[1..], rest);
      if m[0].Some? {
        SesAppend(m[0].value, WriteLists(m[1..], rest));
        SesAppend(m[0].value, WriteLists(m[1..], []));
      }
    }
  }

  lemma SesCons(d: int, ds: seq<int>)
    ensures Ses([d] + ds, []) == UeCode(SeCodeNum(d)) + Ses(ds, []) && Ses([], []) == []
  {
    assert ([d] + ds)[1..] == ds;
  }

  lemma AbsentCons(m: Matrix)
    ensures WriteLists([None] + m, []) == [false] + WriteLists(m, []) && WriteLists([], []) == []
  {
    assert ([None] + m)[1..] == m;
  }

  lemma PresentCons(ds: seq<int>, m: Matrix)
    ensures WriteLists([Some(ds)] + m, []) == [true] + (Ses(ds, []) + WriteLists(m, []))
  {
    assert ([Some(ds)] + m)[1..] == m;
    SesAppend(ds, WriteLists(m, []));
  }

  lemma WrittenDeltas()
    ensures Ses([-15, -1], []) == [false, false, false, false, true, true, true, true, true, false, true, true]
    ensures Ses([0, -8], []) == [true, false, false, false, false, true, false, false, false, true]
  {
    SmallCodes();
    SesCons(-1, []);
    SesCons(-15, [-1]);
    SesCons(-8, []);
    SesCons(0, [-8]);
    hide Ses, UeCode;
    assert [-1] + [] == [-1] && [-15] + [-1] == [-15, -1] && [-8] + [] == [-8] && [0] + [-8] == [0, -8];
  }

  lemma ReadDeltas()
    ensures Ses([-1, 6, 2, 1], []) == [false, true, true, false, false, false, true, true, false, false,
                                       false, false, true, false, false, false, true, false]
  {
    SmallCodes();
    SesCons(1, []);
    SesCons(2, [1]);
    SesCons(6, [2, 1]);
    SesCons(-1, [6, 2, 1]);
    hide Ses, UeCode;
    assert [1] + [] == [1] && [2] + [1] == [2, 1] && [6] + [2, 1] == [6, 2, 1] && [-1] + [6, 2, 1] == [-1, 6, 2, 1];
  }

  lemma ReadZeros()
    ensures Ses([0, 0, 0, 0, -1, 6, 2, 1], []) == [true, true, true, true] + Ses([-1, 6, 2, 1], [])
  {
    SmallCodes();
    var ds := [-1, 6, 2, 1];
    SesCons(0, ds);
    SesCons(0, [0] + ds);
    SesCons(0, [0] + ([0] + ds));
    SesCons(0, [0] + ([0] + ([0] + ds)));
    hide Ses, UeCode;
    assert [0] + ([0] + ([0] + ([0] + ds))) == [0, 0, 0, 0, -1, 6, 2, 1];
  }

  /** What is left of the list 8, -15, -1 after its first delta, then three absent lists, the list 0, -8, an absent one:
      the program takes it for four absent lists and the list 0, 0, 0, 0, -1, 6, 2, 1. */
  lemma SameBits()
    ensures Ses([-15, -1], []) + WriteLists([None, None, None, Some([0, -8]), None], []) ==
            WriteLists([None, None, None, None, Some([0, 0, 0, 0, -1, 6, 2, 1])], [])
  {
    WrittenDeltas();
    ReadDeltas();
    ReadZeros();
    WrittenLists();
    ReadLists();
    hide Ses, WriteLists;
  }

  lemma WrittenLists()
    ensures WriteLists([None, None, None, Some([0, -8]), None], []) ==
            [false, false, false, true] + Ses([0, -8], []) + [false]
  {
    hide Ses, WriteLists;
    var none: Matrix := [None];
    AbsentCons([]);
    assert [None] + [] == none;
    PresentCons([0, -8], none);
    var m1: Matrix := [Some([0, -8])] + none;
    AbsentCons(m1);
    AbsentCons([None] + m1);
    AbsentCons([None] + ([None] + m1));
    assert [None] + ([None] + ([None] + m1)) == [None, None, None, Some([0, -8]), None];
  }

  lemma ReadLists()
    ensures WriteLists([None, None, None, None, Some([0, 0, 0, 0, -1, 6, 2, 1])], []) ==
            [false, false, false, false, true] + Ses([0, 0, 0, 0, -1, 6, 2, 1], [])
  {
    hide Ses, WriteLists;
    var ds := [0, 0, 0, 0, -1, 6, 2, 1];
    AbsentCons([]);
    PresentCons(ds, []);
    var m1: Matrix := [Some(ds)] + [];
    AbsentCons(m1);
    AbsentCons([None] + m1);
    AbsentCons([None] + ([None] + m1));
    AbsentCons([None] + ([None] + ([None] + m1)));
    assert [None] + ([None] + ([None] + ([None] + m1))) == [None, None, None, None, Some(ds)];
  }

  /** A matrix with a misread list. */
  function Cancelling(): Matrix { [None, None, Some([8, -15, -1]), None, None, None, Some([0, -8]), None] }

  /** What the program takes it for. */
  function TakenFor(): Matrix { [None, None, Some([8]), None, None, None, None, Some([0, 0, 0, 0, -1, 6, 2, 1])] }

  lemma CancellingBits()
    ensures WriteLists(Cancelling(), []) == WriteLists(TakenFor(), [])
  {
    hide Ses, WriteLists;
    var left: Matrix := [None, None, None, Some([0, -8]), None];
    var taken: Matrix := [None, None, None, None, Some([0, 0, 0, 0, -1, 6, 2, 1])];
    SameBits();
    SesCons(8, [-15, -1]);
    SesCons(8, []);
    assert [8] + [-15, -1] == [8, -15, -1] && [8] + [] == [8];
    PresentCons([8, -15, -1], left);
    PresentCons([8], taken);
    assert WriteLists([Some([8, -15, -1])] + left, []) == WriteLists([Some([8])] + taken, []);
    AbsentTwice([Some([8, -15, -1])] + left);
    AbsentTwice([Some([8])] + taken);
    assert [None, None] + ([Some([8, -15, -1])] + left) == Cancelling();
    assert [None, None] + ([Some([8])] + taken) == TakenFor();
  }

  lemma AbsentTwice(m: Matrix)
    ensures WriteLists([None, None] + m, []) == [false, false] + WriteLists(m, [])
  {
    hide WriteLists;
    AbsentCons(m);
    AbsentCons([None] + m);
    assert [None] + ([None] + m) == [None, None] + m;
  }

  lemma CancellingLegal()
    ensures LegalMatrix(Cancelling(), LISTS_READ) && !MatrixReadsWhole(Cancelling())
  {
    assert LegalList([8, -15, -1], 16) by {
      var ds := [8, -15, -1];
      assert ds[..1] == [8] && ds[..2] == [8, -15];
      assert Sum([8]) == 8 && Sum([8, -15]) == -7;
      assert Sum(ds) == -8 by { assert ds[1..] == [-15, -1] && ds[1..][1..] == [-1]; }
    }
    assert LegalList([0, -8], 64) by {
      var ds := [0, -8];
      assert ds[..1] == [0];
      assert Sum(ds) == -8;
    }
    var m := Cancelling();
    assert m[2].Some? && m[6].Some? && forall i | 0 <= i < 8 && i != 2 && i != 6 :: m[i].None?;
    assert !EntryReadsWhole(m[2], StandardSize(2));
    hide LegalList, EntryReadsWhole;
  }

  lemma TakenForEnds()
    ensures AllEndTogether(TakenFor(), 0)
  {
    var m := TakenFor();
    assert EndsTogether([8], 16, 8);
    assert EndsTogether([0, 0, 0, 0, -1, 6, 2, 1], 64, 8) by {
      var ds := [0, 0, 0, 0, -1, 6, 2, 1];
      assert EndsTogether([1], 57, 1);
      assert [2, 1][1..] == [1] && EndsTogether([2, 1], 58, 3);
      assert [6, 2, 1][1..] == [2, 1] && EndsTogether([6, 2, 1], 59, 9);
      assert [-1, 6, 2, 1][1..] == [6, 2, 1] && EndsTogether([-1, 6, 2, 1], 60, 8);
      assert [0, -1, 6, 2, 1][1..] == [-1, 6, 2, 1] && EndsTogether([0, -1, 6, 2, 1], 61, 8);
      assert [0, 0, -1, 6, 2, 1][1..] == [0, -1, 6, 2, 1] && EndsTogether([0, 0, -1, 6, 2, 1], 62, 8);
      assert [0, 0, 0, -1, 6, 2, 1][1..] == [0, 0, -1, 6, 2, 1] && EndsTogether([0, 0, 0, -1, 6, 2, 1], 63, 8);
      assert ds[1..] == [0, 0, 0, -1, 6, 2, 1];
    }
    assert m[2].Some? && m[7].Some? && forall k | 0 <= k < 8 && k != 2 && k != 7 :: m[k].None?;
    hide EndsTogether;
  }

  /** Misread lists can make up for each other: this matrix is not read in step, and yet the program ends where the
      matrix does, whatever follows. So no condition on single lists decides where the last one ends. */
  lemma MisreadsCanCancel(rest: seq<bool>)
    ensures LegalMatrix(Cancelling(), LISTS_READ) && !MatrixInStep(Cancelling(), rest)
    ensures TakeScalingLists(WriteLists(Cancelling(), rest), 0, LISTS_READ) == Ok(((), rest))
  {
    CancellingLegal();
    hide LegalMatrix, MatrixReadsWhole, TakeScalingLists, WriteLists;
    MatrixReadsInStep(Cancelling(), LISTS_READ, rest);
    CancellingBits();
    ListsAppend(Cancelling(), rest);
    ListsAppend(TakenFor(), rest);
    TakenForEnds();
    ListsRead(TakenFor(), 0, rest);
  }
}
