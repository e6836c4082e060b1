/** The template function Tmycpy of src/template/simpleTemplate.cc.

    Tmycpy<T> copies the elements of `a` into `b`, one by one, up to and
    including the first element equal to 0 (the terminator), counting the
    elements copied.  It then compares the first `size` elements of the two
    arrays and returns -1 if they differ, the count otherwise.  The element
    type is a parameter, so the terminator is passed as `zero` ('\0' for
    char, 0 for int). */
module SimpleTemplate {

  /** The index of the first terminator in s. */
  function FirstZero<T(==)>(s: seq<T>, zero: T): (k: nat)
    requires zero in s
    ensures k < |s| && s[k] == zero
    ensures forall j :: 0 <= j < k ==> s[j] != zero
  {
    if s[0] == zero then 0
    else
      assert zero in s[1..] by {
        var i :| 0 <= i < |s| && s[i] == zero;
        assert s[1..][i - 1] == zero;
      }
      1 + FirstZero(s[1..], zero)
  }

  /** The contents of `b` once the copy loop is done. */
  function CopyUpToZero<T(==)>(a: seq<T>, b: seq<T>, zero: T): (r: seq<T>)
    requires zero in a && FirstZero(a, zero) < |b|
    ensures |r| == |b|
    ensures forall j :: 0 <= j <= FirstZero(a, zero) ==> r[j] == a[j]
    ensures forall j :: FirstZero(a, zero) < j < |b| ==> r[j] == b[j]
  {
    var k := FirstZero(a, zero);
    a[..k + 1] + b[k + 1..]
  }

  /** What Tmycpy returns for arrays holding `a` and `b`. */
  function TmycpyResult<T(==)>(a: seq<T>, b: seq<T>, zero: T, size: nat): (r: int)
    requires zero in a && FirstZero(a, zero) < |b|
    requires size <= |a| && size <= |b|
    ensures r == -1 || r == FirstZero(a, zero) + 1
    ensures r == -1 <==> exists j :: FirstZero(a, zero) < j < size && a[j] != b[j]
  {
    var k := FirstZero(a, zero);
    var copied := CopyUpToZero(a, b, zero);
    assert forall j :: 0 <= j <= k && j < size ==> copied[j] == a[j];
    assert forall j :: k < j < size ==> copied[j] == b[j];
    if a[..size] != copied[..size] then
      assert exists j :: FirstZero(a, zero) < j < size && a[j] != b[j] by {
        var j :| 0 <= j < size && a[..size][j] != copied[..size][j];
        assert k < j;
      }
      -1
    else
      assert forall j :: k < j < size ==> a[..size][j] == copied[..size][j];
      k + 1
  }

  /** Tmycpy over arrays `a` and `b`, comparing their first `size` elements
      afterwards.  `a` holds a terminator and `b` has room for everything
      up to it; memcmp reads `size` elements of each. */
  method Tmycpy<T(==)>(a: array<T>, b: array<T>, zero: T, size: nat) returns (r: int)
    requires zero in a[..] && FirstZero(a[..], zero) < b.Length
    requires size <= a.Length && size <= b.Length
    modifies b
    ensures a[..] == old(a[..])
    ensures var k := FirstZero(old(a[..]), zero);
      b[..k + 1] == old(a[..k + 1]) && b[k + 1..] == old(b[k + 1..])
    ensures b[..] == CopyUpToZero(old(a[..]), old(b[..]), zero)
    ensures r == TmycpyResult(old(a[..]), old(b[..]), zero, size)
  {
    ghost var k := FirstZero(a[..], zero);
    var count := 1;
    var i := 0;
    b[i] := a[i];
    while b[i] != zero
      invariant 0 <= i <= k
      invariant count == i + 1
      invariant a[..] == old(a[..])
      invariant forall j :: 0 <= j <= i ==> b[j] == old(a[j])
      invariant forall j :: i < j < b.Length ==> b[j] == old(b[j])
      decreases k - i
    {
      count := count + 1;
      i := i + 1;
      b[i] := a[i];
    }
    assert b[..] == CopyUpToZero(old(a[..]), old(b[..]), zero);
    if a[..size] != b[..size] {
      return -1;
    }
    return count;
  }

  /** When the only terminator of `a` is its last element and `b` has the
      same length, the copy makes `b` equal to `a` and the result is that
      length, whatever prefix memcmp compares. */
  lemma WholeArrayCopy<T>(a: seq<T>, b: seq<T>, zero: T, size: nat)
    requires |a| == |b| && 0 < |a| && size <= |a|
    requires a[|a| - 1] == zero && forall j :: 0 <= j < |a| - 1 ==> a[j] != zero
    ensures zero in a && FirstZero(a, zero) == |a| - 1
    ensures CopyUpToZero(a, b, zero) == a
    ensures TmycpyResult(a, b, zero, size) == |a|
  {
    assert a[|a| - 1] in a;
    assert a[..|a|] == a;
  }

  /** The int example of main: ia = {9,8,...,1,0}, ib = {0,...,0,4}. */
  method IntExample() returns (i: int, ib: seq<int>)
    ensures i == 10 && ib == [9, 8, 7, 6, 5, 4, 3, 2, 1, 0]
  {
    var a := new int[10] [9, 8, 7, 6, 5, 4, 3, 2, 1, 0];
    var b := new int[10] [0, 0, 0, 0, 0, 0, 0, 0, 0, 4];
    WholeArrayCopy(a[..], b[..], 0, 10);
    i := Tmycpy(a, b, 0, 10);
    ib := b[..];
  }

  /** The char example of main: "123456789" with its terminator copied
      into an array of the same size filled with 'x'. */
  method CharExample() returns (i: int, ca2: seq<char>)
    ensures i == 10 && ca2 == "123456789\0"
  {
    var ca1 := new char[10] ['1', '2', '3', '4', '5', '6', '7', '8', '9', '\0'];
    var b := new char[10] ['x', 'x', 'x', 'x', 'x', 'x', 'x', 'x', 'x', 'x'];
    WholeArrayCopy(ca1[..], b[..], '\0', 10);
    i := Tmycpy(ca1, b, '\0', 10);
    ca2 := b[..];
  }
}
