/** File paths as component lists, with Rust's component-wise order and prefix test. */
module Paths {
  import opened Bytes
  import opened Ordering
  import opened Cbor

  type Path = seq<Text>

  /** `Path::cmp`: component by component, a proper prefix first. */
  predicate PathLess(a: Path, b: Path) {
    if b == [] then false
    else if a == [] then true
    else if a[0] != b[0] then TextLess(a[0], b[0])
    else PathLess(a[1..], b[1..])
  }

  lemma {:induction false} PathLessTrichotomy(a: Path, b: Path)
    ensures PathLess(a, b) || a == b || PathLess(b, a)
    ensures !(PathLess(a, b) && PathLess(b, a))
  {
    if a != [] && b != [] {
      BytesLessTrichotomy(a[0], b[0]);
      PathLessTrichotomy(a[1..], b[1..]);
      assert a == [a[0]] + a[1..] && b == [b[0]] + b[1..];
    }
  }

  lemma {:induction false} PathLessTransitive(a: Path, b: Path, c: Path)
    requires PathLess(a, b) && PathLess(b, c)
    ensures PathLess(a, c)
  {
    if a != [] {
      if a[0] == b[0] == c[0] {
        PathLessTransitive(a[1..], b[1..], c[1..]);
      } else if a[0] != b[0] && b[0] != c[0] {
        BytesLessTransitive(a[0], b[0], c[0]);
        BytesLessTrichotomy(a[0], c[0]);
      }
    }
  }

  lemma PathLessIsTotal()
    ensures StrictTotalOrder(PathLess)
  {
    forall a: Path, b: Path
      ensures PathLess(a, b) || a == b || PathLess(b, a)
      ensures PathLess(a, b) ==> !PathLess(b, a)
    {
      PathLessTrichotomy(a, b);
    }
    forall a: Path, b: Path, c: Path | PathLess(a, b) && PathLess(b, c)
      ensures PathLess(a, c)
    {
      PathLessTransitive(a, b, c);
    }
  }
}
