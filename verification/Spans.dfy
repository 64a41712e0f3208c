/** How many points that lie at least a gap apart fit into a span. */
module Spans {
  /** n gaps of length c, by addition alone */
  ghost function Gaps(n: nat, c: int): int {
    if n == 0 then 0 else Gaps(n - 1, c) + c
  }

  lemma {:induction false} GapsFit(n: nat, c: int, len: int)
    requires c > 0 && Gaps(n, c) <= len
    ensures n <= len / c
  {
    if n == 0 {
      NonNegativeQuotient(len, c);
    } else {
      GapsFit(n - 1, c, len - c);
      OneLess(len, c);
    }
  }

  lemma NonNegativeQuotient(len: int, c: int)
    requires c > 0 && len >= 0
    ensures len / c >= 0
  {
  }

  lemma OneLess(len: int, c: int)
    requires c > 0
    ensures len / c == (len - c) / c + 1
  {
    var q, r := (len - c) / c, (len - c) % c;
    assert len == (q + 1) * c + r;
    QuotientUnique(len, c, q + 1, r);
  }

  lemma QuotientUnique(len: int, c: int, q: int, r: int)
    requires c > 0 && len == q * c + r && 0 <= r < c
    ensures len / c == q
  {
    var p := len / c;
    assert len == p * c + len % c;
    assert (p - q) * c == r - len % c;
    if p > q { AtLeastOne(p - q, c); }
    if p < q { AtLeastOne(q - p, c); }
  }

  lemma AtLeastOne(k: int, c: int)
    requires k >= 1 && c > 0
    ensures k * c >= c
  {
  }
}
