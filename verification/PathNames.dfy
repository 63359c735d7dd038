/** When two file names name the same file: the lock table's equivalence on paths. */
module PathNames {
  import opened CStrings

  predicate SameChar(a: char, b: char) {
    ToLower(a) == ToLower(b) || (IsSlash(a) && IsSlash(b))
  }

  /** The same path, but for the case of letters and the direction of slashes. */
  predicate SamePath(a: string, b: string) {
    |a| == |b| && forall i :: 0 <= i < |a| ==> SameChar(a[i], b[i])
  }

  /** The character a C string pointer sees, the terminating NUL included. */
  function At(s: string, i: nat): char
    requires i <= |s|
  {
    if i < |s| then s[i] else '\0'
  }

  /** Compares two paths as wcsicmp does, except that any two slashes match; 0 means the same path. */
  method PathNameCompare(src: string, dst: string) returns (order: int)
    requires NoNul(src) && NoNul(dst)
    ensures order == 0 <==> SamePath(src, dst)
  {
    var i := 0;
    var f, l, slashMatch;
    while true
      invariant i <= |src| && i <= |dst|
      invariant forall k :: 0 <= k < i ==> SameChar(src[k], dst[k])
      decreases |dst| - i
    {
      slashMatch := IsSlash(At(dst, i)) && IsSlash(At(src, i));
      f := ToLower(At(dst, i));
      l := ToLower(At(src, i));
      if !(f != '\0' && (f == l || slashMatch)) {
        break;
      }
      i := i + 1;
    }
    if slashMatch {
      return 0;
    }
    return f as int - l as int;
  }

  lemma SamePathReflexive(a: string)
    ensures SamePath(a, a)
  {
  }

  lemma SamePathSymmetric(a: string, b: string)
    requires SamePath(a, b)
    ensures SamePath(b, a)
  {
  }

  lemma SamePathTransitive(a: string, b: string, c: string)
    requires SamePath(a, b) && SamePath(b, c)
    ensures SamePath(a, c)
  {
    forall i | 0 <= i < |a| ensures SameChar(a[i], c[i]) {
      assert SameChar(a[i], b[i]) && SameChar(b[i], c[i]);
    }
  }
}
