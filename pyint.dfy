/**
 * Python's `int(s)` on a string that has already been stripped: an optional
 * `+` or `-` followed by one or more ASCII decimal digits. Anything else is
 * the `ValueError` the caller either catches or lets escape.
 */
module PyInt {
  import opened Wrappers
  import opened Text

  /** The shape `int()` accepts once surrounding whitespace is gone. */
  predicate IsIntLiteral(s: string) {
    var body := if s != [] && (s[0] == '+' || s[0] == '-') then s[1..] else s;
    body != [] && AllDigits(body)
  }

  function ParseInt(s: string): (r: Option<int>)
    ensures r.Some? <==> IsIntLiteral(s)
    ensures r.Some? && s[0] == '-' ==> r.value == -(DigitsValue(s[1..]) as int)
    ensures r.Some? && s[0] != '-' ==> r.value >= 0
    ensures r.Some? && s[0] != '-' ==> r.value == DigitsValue(if s[0] == '+' then s[1..] else s) as int
  {
    if s == [] then None
    else if s[0] == '+' || s[0] == '-' then
      var body := s[1..];
      if body == [] || !AllDigits(body) then None
      else if s[0] == '-' then Some(-(DigitsValue(body) as int))
      else Some(DigitsValue(body))
    else if AllDigits(s) then Some(DigitsValue(s))
    else None
  }

  /** Python's `str(n)` for an integer. */
  function IntToString(n: int): (s: string)
    ensures s != []
  {
    if n < 0 then "-" + NatToString(-n) else NatToString(n)
  }

  /** `int(str(n)) == n` for every integer. */
  lemma ParseIntToString(n: int)
    ensures ParseInt(IntToString(n)) == Some(n)
  {
    var s := IntToString(n);
    if n < 0 {
      assert s[1..] == NatToString(-n);
    } else {
      assert s == NatToString(n);
      assert IsDigit(s[0]);
    }
  }

  /** The text of an `SP  - N/A` line is not an integer. */
  lemma NotApplicableIsNotInt()
    ensures ParseInt("N/A") == None
  {
    assert !IsDigit("N/A"[0]);
  }
}
