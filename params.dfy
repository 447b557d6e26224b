/** The code parameters of an LDPC instance and the check its constructor makes on them
    (block length n, row degree d_r, column degree d_c). */
module CodeParams {
  import opened Arith

  /** Why construction fails: a zero row degree divides by zero when the redundancy is
      computed; otherwise the dimension check raises the "invalid code parameters" error. */
  datatype ParamError = ZeroRowDegree | InvalidCodeParameters

  datatype Result<T> = Ok(value: T) | Err(error: ParamError)

  /** The number of check nodes, n * d_c / d_r truncated to an integer. */
  function Redundancy(n: nat, dr: nat, dc: nat): (r: nat)
    requires dr > 0
    ensures r * dr <= n * dc < (r + 1) * dr
  {
    n * dc / dr
  }

  /** The pair (rate check, row-degree check). When both hold, the redundancy splits
      into d_c blocks of n / d_r check rows each. */
  function DimensionCheck(n: nat, dr: nat, dc: nat, redundancy: nat): (r: (bool, bool))
    requires dr > 0
    ensures r.0 && r.1 ==> redundancy == (n / dr) * dc
  {
    var rateCheck := n * dc == redundancy * dr;
    var rowDegreeCheck := n % dr == 0;
    if rateCheck && rowDegreeCheck then
      assert n == (n / dr) * dr;
      assert redundancy * dr == ((n / dr) * dc) * dr;
      MulCancel(redundancy, (n / dr) * dc, dr);
      (rateCheck, rowDegreeCheck)
    else
      (rateCheck, rowDegreeCheck)
  }

  /** The constructor's guard: the redundancy on success, the reason otherwise.
      Accepted exactly when d_r divides both n * d_c and n. */
  function CheckParameters(n: nat, dr: nat, dc: nat): (r: Result<nat>)
    ensures r.Ok? <==> dr > 0 && (n * dc) % dr == 0 && n % dr == 0
    ensures r.Ok? ==> r.value * dr == n * dc && r.value == (n / dr) * dc
    ensures dr == 0 ==> r == Err(ZeroRowDegree)
  {
    if dr == 0 then Err(ZeroRowDegree)
    else
      var red := Redundancy(n, dr, dc);
      var checks := DimensionCheck(n, dr, dc, red);
      if checks.0 && checks.1 then Ok(red) else Err(InvalidCodeParameters)
  }

  /** The default code (16, 4, 3) has 12 checks. */
  lemma AcceptsDefaultCode()
    ensures CheckParameters(16, 4, 3) == Ok(12)
  {
  }

  /** A row degree of 5 does not divide the block length 16. */
  lemma RejectsRowDegreeFive()
    ensures CheckParameters(16, 5, 3) == Err(InvalidCodeParameters)
  {
  }

  /** The row-degree check implies the rate check: once d_r divides n, n * d_c is the
      redundancy times d_r. So the row-degree check alone decides acceptance. */
  lemma RowDegreeDecides(n: nat, dr: nat, dc: nat)
    requires dr > 0 && n % dr == 0
    ensures n * dc == Redundancy(n, dr, dc) * dr
    ensures CheckParameters(n, dr, dc).Ok?
  {
    var b := n / dr;
    assert n == b * dr;
    assert n * dc == (b * dc) * dr;
    DivUnique(n * dc, dr, b * dc, 0);
  }

  /** (6, 4, 2) passes the rate check and is rejected by the row-degree check, since 4
      does not divide 6. */
  lemma RejectsRateOnly()
    ensures 6 * 2 == Redundancy(6, 4, 2) * 4
    ensures CheckParameters(6, 4, 2) == Err(InvalidCodeParameters)
  {
  }
}
