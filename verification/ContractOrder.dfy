/** Ordering contracts by code: an in-place sort, and why any sort gives the same list. */
module ContractOrder {
  import opened Catalog

  /** Byte order of UTF-8 strings, which is the order of their code points. */
  predicate Less(a: string, b: string) {
    if b == "" then false
    else if a == "" then true
    else a[0] < b[0] || (a[0] == b[0] && Less(a[1..], b[1..]))
  }

  /** `a` comes before `b` where they first differ: by the smaller character, or by ending there. */
  ghost predicate ComesBefore(a: string, b: string) {
    exists i: nat :: FirstDifferenceAt(a, b, i)
  }

  predicate FirstDifferenceAt(a: string, b: string, i: nat) {
    i <= |a| && i < |b| && a[..i] == b[..i] && (i == |a| || a[i] as int < b[i] as int)
  }

  lemma {:induction false} LessIff(a: string, b: string)
    ensures Less(a, b) <==> ComesBefore(a, b)
    decreases |a|
  {
    forall i: nat | 0 < i <= |a| && i <= |b| && a[..i] == b[..i]
      ensures a[0] == b[0]
    {
      assert a[..i][0] == a[0] && b[..i][0] == b[0];
    }
    if a == "" || b == "" {
      if b != "" {
        assert FirstDifferenceAt(a, b, 0);
      }
    } else if a[0] != b[0] {
      if a[0] < b[0] {
        assert FirstDifferenceAt(a, b, 0);
      }
    } else {
      LessIff(a[1..], b[1..]);
      if i: nat :| FirstDifferenceAt(a[1..], b[1..], i) {
        assert a[..i + 1] == [a[0]] + a[1..][..i] && b[..i + 1] == [b[0]] + b[1..][..i];
        assert FirstDifferenceAt(a, b, i + 1);
      }
      if i: nat :| FirstDifferenceAt(a, b, i) {
        assert a[..i] == [a[0]] + a[1..][..i - 1] && b[..i] == [b[0]] + b[1..][..i - 1];
        assert a[1..][..i - 1] == a[..i][1..] && b[1..][..i - 1] == b[..i][1..];
        assert FirstDifferenceAt(a[1..], b[1..], i - 1);
      }
    }
  }

  lemma {:induction false} LessTransitive(a: string, b: string, c: string)
    requires Less(a, b) && Less(b, c)
    ensures Less(a, c)
  {
    if a != "" && a[0] == b[0] == c[0] {
      LessTransitive(a[1..], b[1..], c[1..]);
    }
  }

  lemma {:induction false} LessTotal(a: string, b: string)
    ensures Less(a, b) || Less(b, a) || a == b
    ensures !(Less(a, b) && Less(b, a)) && !Less(a, a)
    decreases |a|
  {
    if a == "" {
    } else {
      LessTotal(a[1..], a[1..]);
      if b != "" {
        LessTotal(a[1..], b[1..]);
        if a[0] == b[0] && a[1..] == b[1..] {
          assert a == [a[0]] + a[1..] && b == [b[0]] + b[1..];
        }
      }
    }
  }

  ghost predicate Ascending(contracts: seq<FunctionContract>) {
    forall i, j | 0 <= i < j < |contracts| :: !Less(contracts[j].code, contracts[i].code)
  }

  ghost predicate StrictlyAscending(contracts: seq<FunctionContract>) {
    forall i, j | 0 <= i < j < |contracts| :: Less(contracts[i].code, contracts[j].code)
  }

  method Swap(a: array<FunctionContract>, i: nat, j: nat)
    requires i < a.Length && j < a.Length
    modifies a
    ensures a[..] == old(a[..])[i := old(a[j])][j := old(a[i])]
    ensures multiset(a[..]) == multiset(old(a[..]))
  {
    a[i], a[j] := a[j], a[i];
  }

  method IndexOfLeast(a: array<FunctionContract>, from: nat) returns (least: nat)
    requires from < a.Length
    ensures from <= least < a.Length
    ensures forall k | from <= k < a.Length :: !Less(a[k].code, a[least].code)
  {
    least := from;
    LessTotal(a[from].code, a[from].code);
    for k := from + 1 to a.Length
      invariant from <= least < k
      invariant forall l | from <= l < k :: !Less(a[l].code, a[least].code)
    {
      if Less(a[k].code, a[least].code) {
        forall l | from <= l < k
          ensures !Less(a[l].code, a[k].code)
        {
          if Less(a[l].code, a[k].code) {
            LessTransitive(a[l].code, a[k].code, a[least].code);
          }
        }
        LessTotal(a[k].code, a[k].code);
        least := k;
      }
    }
  }

  /** An in-place sort. Like the library's, it says nothing about the order of equal codes. */
  method SortByCode(a: array<FunctionContract>)
    modifies a
    ensures Ascending(a[..])
    ensures forall i, j | 0 <= i < j < a.Length :: !ComesBefore(a[j].code, a[i].code)
    ensures multiset(a[..]) == multiset(old(a[..]))
  {
    for i := 0 to a.Length
      invariant multiset(a[..]) == multiset(old(a[..]))
      invariant forall p, q | 0 <= p < i && p < q < a.Length :: !Less(a[q].code, a[p].code)
    {
      var least := IndexOfLeast(a, i);
      Swap(a, i, least);
    }
    forall i, j | 0 <= i < j < a.Length {
      LessIff(a[j].code, a[i].code);
    }
  }

  function Without<T>(s: seq<T>, i: nat): seq<T>
    requires i < |s|
  {
    s[..i] + s[i + 1..]
  }

  lemma MultisetWithout<T>(s: seq<T>, i: nat)
    requires i < |s|
    ensures multiset(Without(s, i)) == multiset(s) - multiset{s[i]}
  {
    assert s == s[..i] + [s[i]] + s[i + 1..];
  }

  /** Distinct codes do not depend on the order of the contracts. */
  lemma PermutationKeepsDistinct(s: seq<FunctionContract>, t: seq<FunctionContract>)
    requires multiset(s) == multiset(t) && DistinctContracts(s)
    ensures DistinctContracts(t)
  {
    forall i, j | 0 <= i < j < |t|
      ensures t[i].code != t[j].code
    {
      assert t[i] in multiset(s);
      var k :| 0 <= k < |s| && s[k] == t[i];
      MultisetWithout(s, k);
      MultisetWithout(t, i);
      assert Without(t, i)[j - 1] == t[j];
      assert t[j] in multiset(Without(s, k));
      var l :| 0 <= l < |Without(s, k)| && Without(s, k)[l] == t[j];
      assert s[if l < k then l else l + 1] == t[j];
    }
  }

  lemma AscendingHeads(s: seq<FunctionContract>, t: seq<FunctionContract>)
    requires StrictlyAscending(s) && StrictlyAscending(t)
    requires multiset(s) == multiset(t) && s != [] && t != []
    ensures s[0] == t[0]
  {
    assert s[0] in multiset(t) && t[0] in multiset(s);
    var i :| 0 <= i < |t| && t[i] == s[0];
    var j :| 0 <= j < |s| && s[j] == t[0];
    LessTotal(s[0].code, t[0].code);
  }

  lemma TailsOfEqualMultisets<T>(s: seq<T>, t: seq<T>)
    requires multiset(s) == multiset(t) && s != [] && t != [] && s[0] == t[0]
    ensures multiset(s[1..]) == multiset(t[1..])
  {
    assert s == [s[0]] + s[1..] && t == [t[0]] + t[1..];
    assert multiset(s[1..]) == multiset(s) - multiset{s[0]};
    assert multiset(t[1..]) == multiset(t) - multiset{t[0]};
  }

  /** A strictly ascending list is determined by its elements. */
  lemma {:induction false} AscendingIsUnique(s: seq<FunctionContract>, t: seq<FunctionContract>)
    requires StrictlyAscending(s) && StrictlyAscending(t)
    requires multiset(s) == multiset(t)
    ensures s == t
    decreases |s|
  {
    if s == [] || t == [] {
      assert |s| == |multiset(s)| && |t| == |multiset(t)|;
    } else {
      AscendingHeads(s, t);
      TailsOfEqualMultisets(s, t);
      AscendingIsUnique(s[1..], t[1..]);
      assert s == [s[0]] + s[1..] && t == [t[0]] + t[1..];
    }
  }

  lemma AscendingDistinctIsStrict(s: seq<FunctionContract>)
    requires Ascending(s) && DistinctContracts(s)
    ensures StrictlyAscending(s)
  {
    forall i, j | 0 <= i < j < |s|
      ensures Less(s[i].code, s[j].code)
    {
      LessTotal(s[i].code, s[j].code);
    }
  }
}
