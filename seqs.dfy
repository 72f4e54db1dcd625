/** Sequence vocabulary shared by the catalog model: subsequences, distinctness,
    duplicate removal and removal of the first occurrence of a value. */
module Seqs {

  /** All elements of `s` are pairwise different. */
  predicate Distinct<T(==)>(s: seq<T>) {
    forall i, j :: 0 <= i < j < |s| ==> s[i] != s[j]
  }

  /** `a` is obtained from `b` by deleting some elements, keeping the order of the rest. */
  predicate IsSubseq<T(==)>(a: seq<T>, b: seq<T>)
    decreases |b|
  {
    a == [] || (b != [] && ((a[0] == b[0] && IsSubseq(a[1..], b[1..])) || IsSubseq(a, b[1..])))
  }

  lemma {:induction false} SubseqRefl<T>(s: seq<T>)
    ensures IsSubseq(s, s)
  {
    if s != [] {
      SubseqRefl(s[1..]);
    }
  }

  lemma {:induction false} SubseqTrans<T>(a: seq<T>, b: seq<T>, c: seq<T>)
    requires IsSubseq(a, b) && IsSubseq(b, c)
    ensures IsSubseq(a, c)
    decreases |c|
  {
    if a != [] {
      if b[0] == c[0] && IsSubseq(b[1..], c[1..]) {
        if a[0] == b[0] && IsSubseq(a[1..], b[1..]) {
          SubseqTrans(a[1..], b[1..], c[1..]);
        } else {
          SubseqTrans(a, b[1..], c[1..]);
        }
      } else {
        SubseqTrans(a, b, c[1..]);
      }
    }
  }

  /** Every element of a subsequence occurs in the sequence it was taken from. */
  lemma {:induction false} SubseqMembers<T>(a: seq<T>, b: seq<T>)
    requires IsSubseq(a, b)
    ensures forall x :: x in a ==> x in b
    ensures |a| <= |b|
    decreases |b|
  {
    if a != [] {
      if a[0] == b[0] && IsSubseq(a[1..], b[1..]) {
        SubseqMembers(a[1..], b[1..]);
        assert forall x :: x in a ==> x == a[0] || x in a[1..];
      } else {
        SubseqMembers(a, b[1..]);
      }
    }
  }

  /** Moving the first element of `rest` over to the end of `done`. */
  lemma ShiftOne<T>(done: seq<T>, rest: seq<T>)
    requires rest != []
    ensures (done + rest)[|done|] == rest[0]
    ensures (done + [rest[0]]) + rest[1..] == done + rest
  {
    assert rest == [rest[0]] + rest[1..];
  }

  /** A slice of a slice is a slice. */
  lemma SliceOfSlice<T>(s: seq<T>, i: nat, j: nat)
    requires i + j <= |s|
    ensures s[i..][j..] == s[i + j..]
  {
  }

  /** A sequence is its first `i` elements, then the middle, then its last `j` elements. */
  lemma Surround<T>(s: seq<T>, i: nat, j: nat)
    requires i + j <= |s|
    ensures s == s[..i] + s[i..][..|s| - i - j] + s[i..][|s| - i - j..]
  {
    var t := s[i..];
    assert t[..|t| - j] + t[|t| - j..] == t;
    assert s[..i] + t == s;
  }

  /** Appending nothing, at either end. */
  lemma AppendEmpty<T>(s: seq<T>, t: seq<T>)
    requires t == []
    ensures s + t == s && t + s == s
  {
  }

  /** Concatenation is associative. */
  lemma Reassociate<T>(a: seq<T>, b: seq<T>, c: seq<T>)
    ensures (a + b) + c == a + (b + c)
  {
  }

  /** Some element of a non-empty set; which one is not specified, as in Python's set iteration. */
  method Pick<T>(s: set<T>) returns (x: T)
    requires s != {}
    ensures x in s
  {
    x :| x in s;
  }

  /** `s` with only the first occurrence of each value kept, in the order of first occurrence. */
  function Dedup<T(==,!new)>(s: seq<T>): (r: seq<T>)
    ensures Distinct(r)
    ensures forall x :: x in r <==> x in s
    decreases |s|
  {
    if s == [] then []
    else
      var d := Dedup(s[..|s| - 1]);
      assert forall x :: x in s <==> x in s[..|s| - 1] || x == s[|s| - 1] by {
        assert s == s[..|s| - 1] + [s[|s| - 1]];
      }
      if s[|s| - 1] in d then d else d + [s[|s| - 1]]
  }

  /** Removing duplicates from a sequence that has none changes nothing. */
  lemma {:induction false} DedupOfDistinct<T(!new)>(s: seq<T>)
    requires Distinct(s)
    ensures Dedup(s) == s
    decreases |s|
  {
    if s != [] {
      var p := s[..|s| - 1];
      assert Distinct(p);
      DedupOfDistinct(p);
      assert s[|s| - 1] !in p;
      assert s == p + [s[|s| - 1]];
    }
  }

  /** `s` without the first occurrence of `x` (Python's `list.remove`); unchanged when `x` is absent. */
  function RemoveFirst<T(==)>(s: seq<T>, x: T): (r: seq<T>)
    ensures x in s ==> |r| == |s| - 1
    ensures x !in s ==> r == s
    decreases |s|
  {
    if s == [] then []
    else if s[0] == x then s[1..]
    else [s[0]] + RemoveFirst(s[1..], x)
  }

  /** `list.remove` deletes exactly one copy of `x`, and keeps the order of the rest. */
  lemma {:induction false} RemoveFirstSpec<T>(s: seq<T>, x: T)
    ensures IsSubseq(RemoveFirst(s, x), s)
    ensures multiset(RemoveFirst(s, x)) == multiset(s) - multiset{x}
    decreases |s|
  {
    if s != [] {
      assert s == [s[0]] + s[1..];
      if s[0] == x {
        SubseqRefl(s[1..]);
      } else {
        var rest := RemoveFirst(s[1..], x);
        RemoveFirstSpec(s[1..], x);
        assert ([s[0]] + rest)[1..] == rest;
      }
    }
  }

  /** Removing one `x` from `s` and splitting what is left into `a` and `b`: `s` is `a` and
      `b` together with `x` put back in front of `b`. */
  lemma RemovedAccounted<T>(s: seq<T>, smaller: seq<T>, x: T, a: seq<T>, b: seq<T>)
    requires x in s
    requires multiset(smaller) == multiset(s) - multiset{x}
    requires multiset(smaller) == multiset(a) + multiset(b)
    ensures multiset(s) == multiset(a) + multiset([x] + b)
  {
    assert x in multiset(s);
    assert multiset(s) == multiset(smaller) + multiset{x};
    assert multiset([x] + b) == multiset{x} + multiset(b);
  }

  /** Removing a value that does not occur in `done` leaves `done` alone. */
  lemma {:induction false} RemoveFirstAfter<T>(done: seq<T>, rest: seq<T>)
    requires rest != [] && rest[0] !in done
    ensures RemoveFirst(done + rest, rest[0]) == done + rest[1..]
    decreases |done|
  {
    if done == [] {
      assert done + rest == rest;
    } else {
      var s := done + rest;
      assert s[0] == done[0] != rest[0];
      assert s[1..] == done[1..] + rest;
      RemoveFirstAfter(done[1..], rest);
      assert done == [done[0]] + done[1..];
      Reassociate([done[0]], done[1..], rest[1..]);
    }
  }

  /** The pieces of a two-element sequence. */
  lemma PairSlices<T>(a: T, b: T)
    ensures [a, b][0] == a && [a, b][1] == b
    ensures [a, b][1..] == [b] && [a, b][..1] == [a]
  {
  }

  /** Every position moved up by one. */
  function ShiftPositions(idx: seq<int>): (r: seq<int>)
    ensures |r| == |idx|
    ensures forall k :: 0 <= k < |idx| ==> r[k] == idx[k] + 1
  {
    seq(|idx|, k requires 0 <= k < |idx| => idx[k] + 1)
  }

  /** `idx` lists positions below `n` in strictly increasing order. */
  ghost predicate Increasing(idx: seq<int>, n: int) {
    && (forall k :: 0 <= k < |idx| ==> 0 <= idx[k] < n)
    && (forall k, l :: 0 <= k < l < |idx| ==> idx[k] < idx[l])
  }

  /** `idx` lists, in increasing order, exactly the positions where `marks` is true. */
  ghost predicate MarksAt(marks: seq<bool>, idx: seq<int>) {
    Increasing(idx, |marks|) && forall i :: 0 <= i < |marks| ==> (i in idx <==> marks[i])
  }

  /** The positions where `marks` is true, in order. */
  ghost function TruePositions(marks: seq<bool>): seq<int>
    decreases |marks|
  {
    if marks == [] then []
    else (if marks[0] then [0] else []) + ShiftPositions(TruePositions(marks[1..]))
  }

  /** `TruePositions` lists exactly the marked positions, increasing. */
  lemma {:induction false} TruePositionsMarks(marks: seq<bool>)
    ensures MarksAt(marks, TruePositions(marks))
    decreases |marks|
  {
    if marks != [] {
      var tail := TruePositions(marks[1..]);
      TruePositionsMarks(marks[1..]);
      ShiftMarks(marks, tail);
      var shifted := ShiftPositions(tail);
      if marks[0] {
        PrependMark(marks, shifted);
        assert TruePositions(marks) == [0] + shifted;
      } else {
        AppendEmpty(shifted, []);
        assert TruePositions(marks) == shifted;
      }
    }
  }

  /** The marked positions of `marks[1..]`, moved up by one, are the marked positions of
      `marks` after the first. */
  lemma ShiftMarks(marks: seq<bool>, idx: seq<int>)
    requires marks != [] && MarksAt(marks[1..], idx)
    ensures Increasing(ShiftPositions(idx), |marks|)
    ensures 0 !in ShiftPositions(idx)
    ensures !marks[0] ==> MarksAt(marks, ShiftPositions(idx))
    ensures forall i :: 1 <= i < |marks| ==> (i in ShiftPositions(idx) <==> marks[i])
  {
    var shifted := ShiftPositions(idx);
    forall i | 1 <= i < |marks| ensures i in shifted <==> marks[i] {
      assert marks[1..][i - 1] == marks[i];
      if i in shifted {
        var k :| 0 <= k < |shifted| && shifted[k] == i;
        assert idx[k] == i - 1;
      }
      if i - 1 in idx {
        var k :| 0 <= k < |idx| && idx[k] == i - 1;
        assert shifted[k] == i;
      }
    }
  }

  /** Putting a marked position 0 in front of the marked positions after it. */
  lemma PrependMark(marks: seq<bool>, shifted: seq<int>)
    requires marks != [] && marks[0]
    requires forall k :: 0 <= k < |shifted| ==> 1 <= shifted[k] < |marks|
    requires forall k, l :: 0 <= k < l < |shifted| ==> shifted[k] < shifted[l]
    requires forall i :: 1 <= i < |marks| ==> (i in shifted <==> marks[i])
    ensures MarksAt(marks, [0] + shifted)
  {
    var all := [0] + shifted;
    forall i | 0 <= i < |marks| ensures i in all <==> marks[i] {
      if i > 0 { assert i in all <==> i in shifted; }
    }
    forall k, l | 0 <= k < l < |all| ensures all[k] < all[l] {
      assert all[l] == shifted[l - 1];
      if k > 0 { assert all[k] == shifted[k - 1]; }
    }
  }
}
