/** Strings: their order by character. */
module Text {
  predicate StringAtMost(a: string, b: string) {
    a == [] || (b != [] && (a[0] < b[0] || (a[0] == b[0] && StringAtMost(a[1..], b[1..]))))
  }

  /** The first character in which they differ decides; a prefix comes first. */
  lemma {:induction false} StringMeaning(a: string, b: string)
    ensures StringAtMost(a, b) <==> a <= b || exists i :: 0 <= i < |a| && i < |b| && a[..i] == b[..i] && a[i] < b[i]
  {
    if a != [] && b != [] {
      StringMeaning(a[1..], b[1..]);
      if StringAtMost(a, b) && a[0] == b[0] {
        assert a == [a[0]] + a[1..] && b == [b[0]] + b[1..];
        if !(a[1..] <= b[1..]) {
          var i :| 0 <= i < |a[1..]| && i < |b[1..]| && a[1..][..i] == b[1..][..i] && a[1..][i] < b[1..][i];
          assert a[..i + 1] == [a[0]] + a[1..][..i] && b[..i + 1] == [b[0]] + b[1..][..i];
        }
      }
      if i: int :| 0 < i < |a| && i < |b| && a[..i] == b[..i] && a[i] < b[i] {
        assert a[0] == a[..i][0] && b[0] == b[..i][0];
        assert a[1..][..i - 1] == a[..i][1..] && b[1..][..i - 1] == b[..i][1..];
      }
    }
  }

  lemma {:induction false} StringOrder(a: string, b: string, c: string)
    ensures StringAtMost(a, a)
    ensures StringAtMost(a, b) || StringAtMost(b, a)
    ensures StringAtMost(a, b) && StringAtMost(b, a) ==> a == b
    ensures StringAtMost(a, b) && StringAtMost(b, c) ==> StringAtMost(a, c)
  {
    if a != [] {
      StringOrder(a[1..], if b == [] then [] else b[1..], if c == [] then [] else c[1..]);
      if b != [] && StringAtMost(a, b) && StringAtMost(b, a) {
        assert a == [a[0]] + a[1..] && b == [b[0]] + b[1..];
      }
    }
  }
}
