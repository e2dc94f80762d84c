/** Small definitions shared by every component of the gateway model. */
module Common {

  datatype Option<+T> = None | Some(value: T) {
    function GetOr(default: T): T {
      if Some? then value else default
    }
  }

  /** A buffer read as a C string: everything before the first terminator. */
  function CString<T(==)>(s: seq<T>, nul: T): (r: seq<T>)
    ensures r <= s && nul !in r
    ensures |r| < |s| ==> s[|r|] == nul
  {
    if s == [] || s[0] == nul then [] else [s[0]] + CString(s[1..], nul)
  }

  /** A terminated copy reads back as what was copied, whatever follows the terminator. */
  lemma {:induction false} CStringOfCopy<T>(r: seq<T>, nul: T, rest: seq<T>)
    requires nul !in r
    ensures CString(r + [nul] + rest, nul) == r
  {
    var s := r + [nul] + rest;
    if r == [] {
    } else {
      CStringOfCopy(r[1..], nul, rest);
      assert s[0] == r[0] && s[1..] == r[1..] + [nul] + rest;
    }
  }

  /** `a` is what is left of `b` after some elements were taken out; order is kept. */
  ghost predicate Subseq<T>(a: seq<T>, b: seq<T>)
    decreases |b|
  {
    if a == [] then true
    else if b == [] then false
    else
      || (a[|a| - 1] == b[|b| - 1] && Subseq(a[..|a| - 1], b[..|b| - 1]))
      || Subseq(a, b[..|b| - 1])
  }

  lemma SubseqRefl<T>(a: seq<T>)
    ensures Subseq(a, a)
  {
    if a == [] {
    } else {
      SubseqRefl(a[..|a| - 1]);
    }
  }

  lemma SubseqPush<T>(a: seq<T>, b: seq<T>, x: T)
    requires Subseq(a, b)
    ensures Subseq(a, b + [x]) && Subseq(a + [x], b + [x])
  {
    assert (b + [x])[..|b|] == b && (a + [x])[..|a|] == a;
  }

  lemma SubseqTake<T>(a: seq<T>, b: seq<T>)
    requires Subseq(a, b) && a != []
    ensures Subseq(a[..|a| - 1], b)
    decreases |b|
  {
    var b' := b[..|b| - 1];
    if a[|a| - 1] == b[|b| - 1] && Subseq(a[..|a| - 1], b') {
      SubseqPush(a[..|a| - 1], b', b[|b| - 1]);
      assert b' + [b[|b| - 1]] == b;
    } else {
      SubseqTake(a, b');
      SubseqPush(a[..|a| - 1], b', b[|b| - 1]);
      assert b' + [b[|b| - 1]] == b;
    }
  }

  lemma SubseqTrans<T>(a: seq<T>, b: seq<T>, c: seq<T>)
    requires Subseq(a, b) && Subseq(b, c)
    ensures Subseq(a, c)
    decreases |b| + |c|
  {
    if a == [] {
    } else {
      var b', c' := b[..|b| - 1], c[..|c| - 1];
      if b[|b| - 1] == c[|c| - 1] && Subseq(b', c') {
        if a[|a| - 1] == b[|b| - 1] && Subseq(a[..|a| - 1], b') {
          SubseqTrans(a[..|a| - 1], b', c');
        } else {
          SubseqTrans(a, b', c');
        }
      } else {
        SubseqTrans(a, b, c');
      }
    }
  }

  /** Taking out one element of a subsequence leaves a subsequence. */
  lemma SubseqRemove<T>(a: seq<T>, k: nat, b: seq<T>)
    requires k < |a| && Subseq(a, b)
    ensures Subseq(a[..k] + a[k + 1..], b)
  {
    SubseqRemoved(a, k);
    SubseqTrans(a[..k] + a[k + 1..], a, b);
  }

  lemma {:induction false} SubseqRemoved<T>(a: seq<T>, k: nat)
    requires k < |a|
    ensures Subseq(a[..k] + a[k + 1..], a)
  {
    SubseqRefl(a[..k]);
    SubseqSuffix(a[..k], a[..k + 1], a[k + 1..]) by {
      SubseqPush(a[..k], a[..k], a[k]);
      assert a[..k + 1] == a[..k] + [a[k]];
    }
    assert a[..k + 1] + a[k + 1..] == a;
  }

  /** Appending the same elements to both keeps a subsequence. */
  lemma {:induction false} SubseqSuffix<T>(a: seq<T>, b: seq<T>, c: seq<T>)
    requires Subseq(a, b)
    ensures Subseq(a + c, b + c)
  {
    if c == [] {
      assert a + c == a && b + c == b;
    } else {
      var c' := c[..|c| - 1];
      SubseqSuffix(a, b, c');
      SubseqPush(a + c', b + c', c[|c| - 1]);
      assert a + c == (a + c') + [c[|c| - 1]];
      assert b + c == (b + c') + [c[|c| - 1]];
    }
  }

  /** A prefix of a subsequence is a subsequence. */
  lemma SubseqPrefix<T>(a: seq<T>, c: seq<T>, b: seq<T>)
    requires Subseq(a + c, b)
    ensures Subseq(a, b)
    decreases |c|
  {
    if c == [] {
      assert a + c == a;
    } else {
      SubseqTake(a + c, b);
      assert (a + c)[..|a + c| - 1] == a + c[..|c| - 1];
      SubseqPrefix(a, c[..|c| - 1], b);
    }
  }

  /** Every element of a subsequence occurs in the whole. */
  lemma SubseqElements<T>(a: seq<T>, b: seq<T>)
    requires Subseq(a, b)
    ensures forall x :: x in a ==> x in b
    decreases |b|
  {
    if a == [] {
    } else {
      var a', b' := a[..|a| - 1], b[..|b| - 1];
      assert a == a' + [a[|a| - 1]] && b == b' + [b[|b| - 1]];
      if a[|a| - 1] == b[|b| - 1] && Subseq(a', b') {
        SubseqElements(a', b');
      } else {
        SubseqElements(a, b');
      }
    }
  }
}
