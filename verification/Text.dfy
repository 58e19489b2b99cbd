/** Strings as the worker and the service compare and print them: ASCII case, decimal numbers. */
module Text {
  import opened Common

  function LowerChar(c: char): char {
    if 'A' <= c <= 'Z' then 'a' + (c - 'A') else c
  }

  /** Case folding, on ASCII letters. */
  function Lower(s: string): (r: string)
    ensures |r| == |s|
  {
    seq(|s|, i requires 0 <= i < |s| => LowerChar(s[i]))
  }

  lemma LowerConcat(a: string, b: string)
    ensures Lower(a + b) == Lower(a) + Lower(b)
  {
  }

  predicate Digits(s: string) {
    forall i :: 0 <= i < |s| ==> '0' <= s[i] <= '9'
  }

  function Decimal(n: nat): string {
    if n < 10 then ['0' + n as char] else Decimal(n / 10) + ['0' + (n % 10) as char]
  }

  function Number(digits: string): nat
    requires Digits(digits)
  {
    if digits == [] then 0
    else 10 * Number(digits[..|digits| - 1]) + (digits[|digits| - 1] - '0') as nat
  }

  lemma {:induction false} DecimalReadsBack(n: nat)
    ensures Decimal(n) != [] && Digits(Decimal(n)) && Number(Decimal(n)) == n
  {
    var d := Decimal(n);
    if n >= 10 {
      DecimalReadsBack(n / 10);
      assert d[..|d| - 1] == Decimal(n / 10);
    } else {
      assert d[..|d| - 1] == [];
    }
  }

  predicate Space(c: char) {
    c == ' ' || '\t' <= c <= '\r'
  }

  function TrimLeft(s: string): (r: string)
    ensures |r| <= |s|
  {
    if s != [] && Space(s[0]) then TrimLeft(s[1..]) else s
  }

  function TrimRight(s: string): (r: string)
    ensures |r| <= |s|
  {
    if s != [] && Space(s[|s| - 1]) then TrimRight(s[..|s| - 1]) else s
  }

  function Trim(s: string): string {
    TrimRight(TrimLeft(s))
  }

  lemma {:induction false} TrimLeftCuts(s: string)
    ensures var r := TrimLeft(s);
            var n := |s| - |r|;
            && s[n..] == r && (r == [] || !Space(r[0])) && forall i :: 0 <= i < n ==> Space(s[i])
  {
    if s != [] && Space(s[0]) {
      TrimLeftCuts(s[1..]);
      assert forall i :: 1 <= i < |s| ==> s[i] == s[1..][i - 1];
    }
  }

  lemma {:induction false} TrimRightCuts(s: string)
    ensures var r := TrimRight(s);
            s[..|r|] == r && (r == [] || !Space(r[|r| - 1])) && forall i :: |r| <= i < |s| ==> Space(s[i])
  {
    if s != [] && Space(s[|s| - 1]) {
      TrimRightCuts(s[..|s| - 1]);
    }
  }

  /** Trimming cuts off the spaces at both ends, and nothing else. */
  lemma TrimCuts(s: string)
    ensures var n, r := |s| - |TrimLeft(s)|, Trim(s);
            && n + |r| <= |s| && s[n..n + |r|] == r
            && (r == [] || (!Space(r[0]) && !Space(r[|r| - 1])))
            && (forall i :: 0 <= i < n ==> Space(s[i])) && forall i :: n + |r| <= i < |s| ==> Space(s[i])
  {
    hide TrimLeft, TrimRight, Space;
    var t := TrimLeft(s);
    TrimLeftCuts(s);
    TrimRightCuts(t);
    var n, r := |s| - |t|, TrimRight(t);
    assert s[n..n + |r|] == s[n..][..|r|] == t[..|r|];
    forall i | n + |r| <= i < |s|
      ensures Space(s[i])
    {
      assert s[i] == s[n..][i - n] == t[i - n];
    }
    if r != [] {
      assert r[0] == t[..|r|][0];
    }
  }
}
