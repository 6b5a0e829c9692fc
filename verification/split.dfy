/** Cutting a sequence at separator elements and gluing it back: Rust's
    `str::split` and `join`, generic so that both strings (cut at `'\n'`) and
    span queues (cut at newline markers) can use it. */
module Split {

  /** No element of `x` is a separator. */
  ghost predicate Free<T>(x: seq<T>, isSep: T -> bool) {
    forall j :: 0 <= j < |x| ==> !isSep(x[j])
  }

  /** Number of separators in `s`. */
  function Count<T>(s: seq<T>, isSep: T -> bool): nat
  {
    if |s| == 0 then 0 else (if isSep(s[0]) then 1 else 0) + Count(s[1..], isSep)
  }

  /** `s` with every separator removed. */
  function Strip<T>(s: seq<T>, isSep: T -> bool): (r: seq<T>)
    ensures Free(r, isSep)
    ensures |r| + Count(s, isSep) == |s|
  {
    if |s| == 0 then []
    else if isSep(s[0]) then Strip(s[1..], isSep)
    else [s[0]] + Strip(s[1..], isSep)
  }

  /** The pieces between separators, in order; there is always one more piece
      than there are separators, and empty pieces are kept. */
  function SplitWhere<T>(s: seq<T>, isSep: T -> bool): (parts: seq<seq<T>>)
    ensures |parts| == Count(s, isSep) + 1
    decreases |s|
  {
    if |s| == 0 then [[]]
    else
      var rest := SplitWhere(s[1..], isSep);
      if isSep(s[0]) then [[]] + rest
      else [[s[0]] + rest[0]] + rest[1..]
  }

  /** No piece holds a separator. */
  lemma {:induction false} SplitWhereFree<T>(s: seq<T>, isSep: T -> bool)
    ensures forall i :: 0 <= i < |SplitWhere(s, isSep)| ==> Free(SplitWhere(s, isSep)[i], isSep)
    decreases |s|
  {
    if |s| > 0 {
      SplitWhereFree(s[1..], isSep);
      var rest := SplitWhere(s[1..], isSep);
      if !isSep(s[0]) {
        assert Free([s[0]] + rest[0], isSep);
      }
    }
  }

  /** The pieces glued back with `sep` between consecutive ones. */
  function JoinWith<T>(parts: seq<seq<T>>, sep: T): seq<T>
    requires |parts| >= 1
  {
    if |parts| == 1 then parts[0] else parts[0] + [sep] + JoinWith(parts[1..], sep)
  }

  /** The pieces glued back with nothing between them. */
  function Concat<T>(parts: seq<seq<T>>): seq<T>
  {
    if |parts| == 0 then [] else parts[0] + Concat(parts[1..])
  }

  /** Splitting and then joining with the (only) separator rebuilds the input. */
  lemma {:induction false} JoinSplit<T>(s: seq<T>, isSep: T -> bool, sep: T)
    requires forall j :: 0 <= j < |s| && isSep(s[j]) ==> s[j] == sep
    ensures JoinWith(SplitWhere(s, isSep), sep) == s
    decreases |s|
  {
    if |s| > 0 {
      var rest := SplitWhere(s[1..], isSep);
      JoinSplit(s[1..], isSep, sep);
      if isSep(s[0]) {
        assert SplitWhere(s, isSep)[1..] == rest;
      } else {
        var parts := SplitWhere(s, isSep);
        assert parts[0] == [s[0]] + rest[0];
        if |rest| == 1 {
          assert JoinWith(parts, sep) == [s[0]] + rest[0];
        } else {
          assert parts[1..] == rest[1..];
          assert JoinWith(rest, sep) == rest[0] + [sep] + JoinWith(rest[1..], sep);
        }
      }
    }
  }

  /** Splitting a piece-free prefix followed by more input extends the first piece. */
  lemma {:induction false} SplitFreePrefix<T>(a: seq<T>, b: seq<T>, isSep: T -> bool)
    requires Free(a, isSep)
    ensures SplitWhere(a + b, isSep)
         == [a + SplitWhere(b, isSep)[0]] + SplitWhere(b, isSep)[1..]
    decreases |a|
  {
    if |a| > 0 {
      assert (a + b)[1..] == a[1..] + b;
      SplitFreePrefix(a[1..], b, isSep);
      var rest := SplitWhere(a[1..] + b, isSep);
      assert !isSep((a + b)[0]);
      assert SplitWhere(a + b, isSep) == [[a[0]] + rest[0]] + rest[1..];
      assert [a[0]] + (a[1..] + SplitWhere(b, isSep)[0]) == a + SplitWhere(b, isSep)[0];
    } else {
      var parts := SplitWhere(b, isSep);
      assert a + b == b && a + parts[0] == parts[0];
      assert [parts[0]] + parts[1..] == parts;
    }
  }

  /** Joining separator-free pieces and splitting again gives the pieces back. */
  lemma {:induction false} SplitJoin<T>(parts: seq<seq<T>>, isSep: T -> bool, sep: T)
    requires |parts| >= 1
    requires isSep(sep)
    requires forall i :: 0 <= i < |parts| ==> Free(parts[i], isSep)
    ensures SplitWhere(JoinWith(parts, sep), isSep) == parts
    decreases |parts|
  {
    if |parts| == 1 {
      SplitFreePrefix(parts[0], [], isSep);
      assert parts[0] + [] == parts[0];
    } else {
      var tail := JoinWith(parts[1..], sep);
      SplitJoin(parts[1..], isSep, sep);
      assert JoinWith(parts, sep) == parts[0] + ([sep] + tail);
      SplitFreePrefix(parts[0], [sep] + tail, isSep);
      assert ([sep] + tail)[1..] == tail;
      assert SplitWhere([sep] + tail, isSep) == [[]] + parts[1..];
      assert parts[0] + [] == parts[0];
    }
  }

  /** Splitting and then concatenating the pieces only drops the separators. */
  lemma {:induction false} ConcatSplit<T>(s: seq<T>, isSep: T -> bool)
    ensures Concat(SplitWhere(s, isSep)) == Strip(s, isSep)
    decreases |s|
  {
    if |s| > 0 {
      var rest := SplitWhere(s[1..], isSep);
      ConcatSplit(s[1..], isSep);
      if isSep(s[0]) {
        assert SplitWhere(s, isSep)[1..] == rest;
      } else {
        var parts := SplitWhere(s, isSep);
        assert parts[1..] == rest[1..];
        assert Concat(rest) == rest[0] + Concat(rest[1..]);
      }
    }
  }

  lemma {:induction false} CountAppend<T>(a: seq<T>, b: seq<T>, isSep: T -> bool)
    ensures Count(a + b, isSep) == Count(a, isSep) + Count(b, isSep)
    decreases |a|
  {
    if |a| > 0 {
      assert (a + b)[1..] == a[1..] + b;
      CountAppend(a[1..], b, isSep);
    } else {
      assert a + b == b;
    }
  }

  lemma {:induction false} StripAppend<T>(a: seq<T>, b: seq<T>, isSep: T -> bool)
    ensures Strip(a + b, isSep) == Strip(a, isSep) + Strip(b, isSep)
    decreases |a|
  {
    if |a| > 0 {
      assert (a + b)[1..] == a[1..] + b;
      StripAppend(a[1..], b, isSep);
    } else {
      assert a + b == b;
    }
  }
}
