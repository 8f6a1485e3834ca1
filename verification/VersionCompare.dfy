/** version_compare and its wrappers in core/includes/versioncompare.inc, on
    versions already split into their numeric components. */
module VersionCompare {

  type Version = seq<nat>

  /** A component, zero past the end. */
  function At(v: Version, i: nat): nat {
    if i < |v| then v[i] else 0
  }

  ghost predicate AgreeBelow(a: Version, b: Version, k: nat) {
    forall j: nat :: j < k ==> At(a, j) == At(b, j)
  }

  ghost predicate GreaterAt(a: Version, b: Version, k: nat) {
    At(a, k) > At(b, k) && AgreeBelow(a, b, k)
  }

  /** Lexicographically greater as infinite, zero-padded sequences. */
  ghost predicate Greater(a: Version, b: Version) {
    exists k: nat :: GreaterAt(a, b, k)
  }

  ghost predicate Same(a: Version, b: Version) {
    forall i: nat :: At(a, i) == At(b, i)
  }

  /** 0 when equal, 1 when a is greater, 2 otherwise. */
  ghost function Compare(a: Version, b: Version): int {
    if Greater(a, b) then 1 else if Greater(b, a) then 2 else 0
  }

  lemma GreaterExcludes(a: Version, b: Version)
    requires Greater(a, b)
    ensures !Greater(b, a)
  {
    var k: nat :| GreaterAt(a, b, k);
    forall l: nat
      ensures !GreaterAt(b, a, l)
    {
      assert l > k ==> At(a, k) != At(b, k);
      assert l < k ==> At(a, l) == At(b, l);
    }
  }

  lemma GreaterTrans(a: Version, b: Version, c: Version)
    requires Greater(a, b) && Greater(b, c)
    ensures Greater(a, c)
  {
    var k: nat :| GreaterAt(a, b, k);
    var l: nat :| GreaterAt(b, c, l);
    assert GreaterAt(a, c, if k < l then k else l);
  }

  lemma SameGreater(a: Version, a': Version, b: Version, b': Version)
    requires Same(a, a') && Same(b, b') && Greater(a, b)
    ensures Greater(a', b')
  {
    var k: nat :| GreaterAt(a, b, k);
    assert GreaterAt(a', b', k);
  }

  /** Searching up to the longer length decides between greater, less and equal. */
  lemma {:induction false} Decide(a: Version, b: Version, i: nat)
    requires AgreeBelow(a, b, i)
    ensures Greater(a, b) || Greater(b, a) || Same(a, b)
    decreases |a| + |b| - i
  {
    if i >= |a| && i >= |b| {
      assert Same(a, b);
    } else if At(a, i) > At(b, i) {
      assert GreaterAt(a, b, i);
    } else if At(a, i) < At(b, i) {
      assert GreaterAt(b, a, i);
    } else {
      Decide(a, b, i + 1);
    }
  }

  lemma SameIsNotGreater(a: Version, b: Version)
    requires Same(a, b)
    ensures !Greater(a, b) && !Greater(b, a)
  {
  }

  function TrimZeros(v: Version): Version {
    if v == [] || v[|v| - 1] != 0 then v else TrimZeros(v[..|v| - 1])
  }

  lemma {:induction false} TrimZerosSame(v: Version)
    ensures Same(v, TrimZeros(v)) && (TrimZeros(v) != [] ==> TrimZeros(v)[|TrimZeros(v)| - 1] != 0)
    decreases |v|
  {
    if v != [] && v[|v| - 1] == 0 {
      TrimZerosSame(v[..|v| - 1]);
      assert Same(v, v[..|v| - 1]);
    }
  }

  lemma SameIsTrimmedEqual(a: Version, b: Version)
    ensures Same(a, b) <==> TrimZeros(a) == TrimZeros(b)
  {
    var s, t := TrimZeros(a), TrimZeros(b);
    TrimZerosSame(a);
    TrimZerosSame(b);
    if Same(a, b) {
      assert Same(s, t);
      var i, j := if s == [] then 0 else |s| - 1, if t == [] then 0 else |t| - 1;
      assert At(s, i) == At(t, i) && At(s, j) == At(t, j);
      assert |s| == |t|;
      forall i | 0 <= i < |s|
        ensures s[i] == t[i]
      {
        assert At(s, i) == At(t, i);
      }
    }
  }

  /** version_compare is a total preorder, equal exactly up to trailing zeros. */
  lemma TotalPreorder(a: Version, b: Version, c: Version)
    ensures Compare(a, b) == 1 <==> Compare(b, a) == 2
    ensures Compare(a, b) == 0 <==> TrimZeros(a) == TrimZeros(b)
    ensures Compare(a, b) != 2 && Compare(b, c) != 2 ==> Compare(a, c) != 2
    ensures Compare(a, b) != 2 && Compare(b, c) != 2 && (Compare(a, b) == 1 || Compare(b, c) == 1) ==> Compare(a, c) == 1
  {
    CompareCases(a, b);
    CompareCases(b, c);
    CompareCases(a, c);
    SameIsTrimmedEqual(a, b);
    if Greater(a, b) && Greater(b, c) {
      GreaterTrans(a, b, c);
    } else if Same(a, b) && Greater(b, c) {
      SameGreater(b, a, c, c);
    } else if Greater(a, b) && Same(b, c) {
      SameGreater(a, a, b, c);
    } else if Same(a, b) && Same(b, c) {
      assert Same(a, c);
    }
  }

  lemma CompareCases(a: Version, b: Version)
    ensures Compare(a, b) == 0 <==> Same(a, b)
    ensures Greater(a, b) ==> !Greater(b, a)
    ensures Compare(a, b) == 2 <==> Greater(b, a)
  {
    Decide(a, b, 0);
    if Greater(a, b) {
      GreaterExcludes(a, b);
    }
    if Same(a, b) {
      SameIsNotGreater(a, b);
    }
  }

  // ----- The shell functions -----

  method Compared(v1: Version, v2: Version) returns (r: int)
    ensures r == Compare(v1, v2)
  {
    CompareCases(v1, v2);
    if v1 == v2 {
      return 0;
    }
    var ver1, ver2 := v1, v2;
    for i := |v1| to if |v2| > |v1| then |v2| else |v1|
      invariant |ver1| == i && Same(ver1, v1)
    {
      ver1 := ver1 + [0];
    }
    for i := 0 to |ver1|
      invariant |ver2| >= i && Same(ver2, v2) && AgreeBelow(v1, v2, i)
    {
      assert At(ver1, i) == At(v1, i) && At(ver2, i) == At(v2, i);
      if i == |ver2| {
        ver2 := ver2 + [0];
      }
      if ver1[i] > ver2[i] {
        assert GreaterAt(v1, v2, i);
        return 1;
      }
      if ver1[i] < ver2[i] {
        assert GreaterAt(v2, v1, i);
        return 2;
      }
    }
    assert Same(v1, v2);
    return 0;
  }

  /** The wrappers return shell truth: success as true. */
  method VersionGe(v1: Version, v2: Version) returns (ok: bool)
    ensures ok <==> Greater(v1, v2) || TrimZeros(v1) == TrimZeros(v2)
  {
    var ret := Compared(v1, v2);
    CompareCases(v1, v2);
    SameIsTrimmedEqual(v1, v2);
    ok := ret != 2;
  }

  method VersionLe(v1: Version, v2: Version) returns (ok: bool)
    ensures ok <==> Greater(v2, v1) || TrimZeros(v1) == TrimZeros(v2)
  {
    var ret := Compared(v1, v2);
    CompareCases(v1, v2);
    SameIsTrimmedEqual(v1, v2);
    ok := ret != 1;
  }

  method VersionGt(v1: Version, v2: Version) returns (ok: bool)
    ensures ok <==> Greater(v1, v2)
  {
    var ret := Compared(v1, v2);
    ok := ret == 1;
  }

  method VersionLt(v1: Version, v2: Version) returns (ok: bool)
    ensures ok <==> Greater(v2, v1)
  {
    var ret := Compared(v1, v2);
    CompareCases(v1, v2);
    ok := ret == 2;
  }

  /** version_eq hands on the comparison's status, so 0 is success. */
  method VersionEq(v1: Version, v2: Version) returns (ok: bool)
    ensures ok <==> TrimZeros(v1) == TrimZeros(v2)
  {
    var ret := Compared(v1, v2);
    CompareCases(v1, v2);
    SameIsTrimmedEqual(v1, v2);
    ok := ret == 0;
  }

  /** The first components that differ decide, whatever follows them. */
  lemma FirstDifferenceDecides(common: Version, x: nat, y: nat, s: Version, t: Version)
    requires x > y
    ensures Compare(common + [x] + s, common + [y] + t) == 1
    ensures Compare(common + [y] + t, common + [x] + s) == 2
  {
    var a, b, k := common + [x] + s, common + [y] + t, |common|;
    assert At(a, k) == x && At(b, k) == y;
    assert forall j: nat :: j < k ==> At(a, j) == common[j] == At(b, j);
    assert GreaterAt(a, b, k);
    GreaterExcludes(a, b);
  }

  /** A missing component counts as zero. */
  lemma LongerIsGreater(v: Version, x: nat)
    ensures Compare(v + [x], v) == if x > 0 then 1 else 0
  {
    var a := v + [x];
    assert At(a, |v|) == x && At(v, |v|) == 0;
    assert forall j: nat :: j < |v| ==> At(a, j) == At(v, j);
    if x > 0 {
      assert GreaterAt(a, v, |v|);
    } else {
      assert Same(a, v);
      SameIsNotGreater(a, v);
    }
  }
}
