/** Product codes: `main-sub-seq-0000-status`, the identity of a product inside an inventory. */
module ProductCode {
  import opened Decimal

  predicate DashFree(s: string) {
    '-' !in s
  }

  /** `fmt.Sprintf("%s-%s-%04d-%04d-%s", main, sub, seq, 0, status)`. */
  function Code(mainZone: string, subZone: string, seqNumber: int, status: string): string {
    mainZone + "-" + (subZone + "-" + (Padded(seqNumber, 4) + "-" + (Padded(0, 4) + "-" + status)))
  }

  /** For instance. */
  lemma CodeOfSeven()
    ensures Code("A", "B", 7, "N") == "A-B-0007-0000-N"
  {
    FillsUp("0");
    FillsUp("7");
  }

  /** A dash-free head is determined by the text up to the first dash. */
  lemma SplitAtDash(a: string, x: string, b: string, y: string)
    requires DashFree(a) && DashFree(b)
    requires a + "-" + x == b + "-" + y
    ensures a == b && x == y
  {
    var s, t := a + "-" + x, b + "-" + y;
    assert s[|a|] == '-' && t[|b|] == '-';
    assert forall i | 0 <= i < |a| :: s[i] == a[i];
    assert forall i | 0 <= i < |b| :: t[i] == b[i];
    assert |a| == |b|;
    assert a == s[..|a|] == t[..|b|] == b;
    assert x == s[|a| + 1..] == t[|b| + 1..] == y;
  }

  lemma DigitsAreDashFree(s: string)
    requires AllDigits(s)
    ensures DashFree(s)
  {
  }

  /** A printed number of either sign, followed by a dash, is read back unambiguously. */
  lemma SplitAtNumber(m: int, x: string, n: int, y: string)
    requires Padded(m, 4) + "-" + x == Padded(n, 4) + "-" + y
    ensures m == n && x == y
  {
    var s, t := Padded(m, 4) + "-" + x, Padded(n, 4) + "-" + y;
    var p, q := if m < 0 then -m else m, if n < 0 then -n else n;
    var w, v := if m < 0 then 3 else 4, if n < 0 then 3 else 4;
    ValueOfPadded(p, w);
    ValueOfPadded(q, v);
    DigitsAreDashFree(Padded(p, w));
    DigitsAreDashFree(Padded(q, v));
    assert m >= 0 ==> IsDigit(s[0]);
    assert n >= 0 ==> IsDigit(t[0]);
    assert m < 0 ==> s[0] == '-' && s[1..] == Padded(p, w) + "-" + x;
    assert n < 0 ==> t[0] == '-' && t[1..] == Padded(q, v) + "-" + y;
    SplitAtDash(Padded(p, w), x, Padded(q, v), y);
  }

  /**
   * Equal codes mean equal (main, sub, sequence, status) tuples, for dash-free zones. The sequence
   * number may be negative and the status may contain dashes.
   */
  lemma CodeIdentity(main1: string, sub1: string, seq1: int, status1: string,
                     main2: string, sub2: string, seq2: int, status2: string)
    requires DashFree(main1) && DashFree(sub1) && DashFree(main2) && DashFree(sub2)
    ensures Code(main1, sub1, seq1, status1) == Code(main2, sub2, seq2, status2)
       <==> main1 == main2 && sub1 == sub2 && seq1 == seq2 && status1 == status2
  {
    if Code(main1, sub1, seq1, status1) == Code(main2, sub2, seq2, status2) {
      var last1, last2 := Padded(0, 4) + "-" + status1, Padded(0, 4) + "-" + status2;
      var tail1, tail2 := Padded(seq1, 4) + "-" + last1, Padded(seq2, 4) + "-" + last2;
      SplitAtDash(main1, sub1 + "-" + tail1, main2, sub2 + "-" + tail2);
      SplitAtDash(sub1, tail1, sub2, tail2);
      SplitAtNumber(seq1, last1, seq2, last2);
      SplitAtNumber(0, status1, 0, status2);
    }
  }

  // ---- When a code identifies its tuple among all tuples -----------------------------------

  /** No other tuple at all has this tuple's code. */
  ghost predicate Identifies(mainZone: string, subZone: string, seqNumber: int, status: string) {
    forall m, u, n, s | Code(m, u, n, s) == Code(mainZone, subZone, seqNumber, status) ::
      m == mainZone && u == subZone && n == seqNumber && s == status
  }

  /** A dash inside the main zone can be moved across: its second half joins the sub zone. */
  lemma DashedMainCollides(x: string, y: string, subZone: string, seqNumber: int, status: string)
    ensures Code(x + "-" + y, subZone, seqNumber, status) == Code(x, y + "-" + subZone, seqNumber, status)
    ensures x != x + "-" + y
  {
    var tail := Padded(seqNumber, 4) + "-" + (Padded(0, 4) + "-" + status);
    assert (x + "-" + y) + "-" + (subZone + "-" + tail) == x + "-" + ((y + "-" + subZone) + "-" + tail);
    assert |x| < |x + "-" + y|;
  }

  /** A sequence number of four digits or more gives its sign away to the sub zone. */
  lemma LongNegativeCollides(mainZone: string, subZone: string, seqNumber: int, status: string)
    requires seqNumber <= -1000
    ensures Code(mainZone, subZone, seqNumber, status) == Code(mainZone, subZone + "-", -seqNumber, status)
  {
    var digits := Digits(-seqNumber);
    FourDigits(-seqNumber);
    assert Padded(seqNumber, 4) == "-" + digits && Padded(-seqNumber, 4) == digits;
    var tail := Padded(0, 4) + "-" + status;
    assert subZone + "-" + (("-" + digits) + "-" + tail) == (subZone + "-") + "-" + (digits + "-" + tail);
  }

  // ---- Statuses that read like the end of a code ------------------------------------------

  /** A printed number, the fixed zeros, and a status: how every code ends. */
  function Ending(n: int, status: string): string {
    Padded(n, 4) + "-" + (Padded(0, 4) + "-" + status)
  }

  function Behind(head: string, n: int, status: string): string {
    head + "-" + Ending(n, status)
  }

  /** The status starts with the fixed zeros, or contains a whole ending, at its start or after a dash. */
  ghost predicate ReadsLikeEnd(status: string) {
    || (exists s :: status == Padded(0, 4) + "-" + s)
    || (exists n, s :: status == Ending(n, s))
    || (exists w, n, s :: status == Behind(w, n, s))
  }

  /** Such a status can be cut elsewhere: everything up to the cut joins the sub zone. */
  lemma DashedStatusCollides(mainZone: string, subZone: string, seqNumber: int, status: string)
    returns (u: string, n: int, s: string)
    requires ReadsLikeEnd(status)
    ensures Code(mainZone, subZone, seqNumber, status) == Code(mainZone, u, n, s) && u != subZone
  {
    var number, zero := Padded(seqNumber, 4), Padded(0, 4);
    if t :| status == zero + "-" + t {
      u, n, s := subZone + "-" + number, 0, t;
      JoinZone(subZone, number, zero + "-" + status);
    } else if m, t :| status == Ending(m, t) {
      u, n, s := subZone + "-" + (number + "-" + zero), m, t;
      MoveAcross(subZone, number, zero, status);
    } else {
      var w, m, t :| status == Behind(w, m, t);
      u, n, s := subZone + "-" + (number + "-" + (zero + "-" + w)), m, t;
      MoveFurther(subZone, number, zero, w, Ending(m, t));
    }
    assert |u| > |subZone|;
  }

  lemma JoinZone(a: string, b: string, c: string)
    ensures a + "-" + (b + "-" + c) == (a + "-" + b) + "-" + c
  {
  }

  lemma MoveFurther(a: string, b: string, c: string, d: string, e: string)
    ensures a + "-" + (b + "-" + (c + "-" + (d + "-" + e))) == (a + "-" + (b + "-" + (c + "-" + d))) + "-" + e
  {
    MoveAcross(b, c, d, e);
    JoinZone(a, b + "-" + (c + "-" + d), e);
  }

  /** The smallest such case: two tuples that both fit the columns of the product table. */
  lemma ShortStatusCollides()
    ensures Code("A", "B", 1, "0000-B") == Code("A", "B-0001", 0, "B")
  {
    JoinZone("B", Padded(1, 4), Padded(0, 4) + "-" + (Padded(0, 4) + "-" + "B"));
    OneIsPadded();
  }

  lemma OneIsPadded()
    ensures Padded(0, 4) == "0000" && Padded(1, 4) == "0001"
  {
    FillsUp("0");
    FillsUp("1");
  }

  lemma FillsUp(digit: string)
    requires |digit| == 1
    ensures ZeroFill(digit, 4) == "000" + digit
  {
    assert ZeroFill("0" + ("0" + ("0" + digit)), 4) == "0" + ("0" + ("0" + digit));
    assert ZeroFill("0" + ("0" + digit), 4) == ZeroFill("0" + ("0" + ("0" + digit)), 4);
    assert ZeroFill("0" + digit, 4) == ZeroFill("0" + ("0" + digit), 4);
  }

  lemma MoveAcross(a: string, b: string, c: string, d: string)
    ensures a + "-" + (b + "-" + (c + "-" + d)) == (a + "-" + (b + "-" + c)) + "-" + d
  {
    assert b + "-" + (c + "-" + d) == (b + "-" + c) + "-" + d;
    assert a + "-" + ((b + "-" + c) + "-" + d) == (a + "-" + (b + "-" + c)) + "-" + d;
  }

  lemma FourDigits(n: nat)
    ensures |Digits(n)| >= 4 <==> n >= 1000
    ensures n < 1000 ==> |Digits(n)| <= 3
  {
    var tens := n / 10;
    var hundreds := tens / 10;
    assert Digits(tens) == if tens < 10 then [DigitChar(tens)] else Digits(hundreds) + [DigitChar(tens % 10)];
    assert Digits(hundreds) ==
           if hundreds < 10 then [DigitChar(hundreds)] else Digits(hundreds / 10) + [DigitChar(hundreds % 10)];
  }

  /** Before a dash-free head, a text either is the head or continues behind it. */
  lemma SplitBehindHead(x: string, y: string, head: string, tail: string) returns (rest: string)
    requires DashFree(head) && x + "-" + y == head + "-" + tail
    ensures DashFree(x) ==> x == head && y == tail
    ensures !DashFree(x) ==> rest + "-" + y == tail && x == head + "-" + rest
  {
    rest := "";
    if DashFree(x) {
      SplitAtDash(x, y, head, tail);
    } else {
      var first, more := SplitFirst(x);
      rest := more;
      assert x + "-" + y == first + "-" + (more + "-" + y);
      SplitAtDash(first, more + "-" + y, head, tail);
    }
  }

  lemma SplitFirst(s: string) returns (x: string, y: string)
    requires !DashFree(s)
    ensures s == x + "-" + y && DashFree(x)
  {
    var i := 0;
    while s[i] != '-'
      invariant 0 <= i < |s| && DashFree(s[..i]) && exists k :: i <= k < |s| && s[k] == '-'
      decreases |s| - i
    {
      i := i + 1;
    }
    x, y := s[..i], s[i + 1..];
  }

  lemma ShortFill(s: string)
    requires |s| <= 3
    ensures |ZeroFill(s, 3)| == 3
    decreases 3 - |s|
  {
    if |s| < 3 { ShortFill("0" + s); }
  }

  /** A code that ends with another ending inside its own number and status: the status reads like an end. */
  lemma EndingInside(x: string, n: int, s: string, digits: string, status: string)
    requires DashFree(digits) && digits != "" && digits[0] != '-'
    requires x + "-" + Ending(n, s) == digits + "-" + (Padded(0, 4) + "-" + status)
    ensures ReadsLikeEnd(status)
  {
    var zero := Padded(0, 4);
    ValueOfPadded(0, 4);
    DigitsAreDashFree(zero);
    var rest := SplitBehindHead(x, Ending(n, s), digits, zero + "-" + status);
    if DashFree(x) {
      SplitAtNumber(n, zero + "-" + s, 0, status);
      assert status == zero + "-" + s;
    } else {
      var w := SplitBehindHead(rest, Ending(n, s), zero, status);
      if DashFree(rest) {
        assert status == Ending(n, s);
      } else {
        assert status == Behind(w, n, s);
      }
    }
  }

  /** The same behind a printed number above -1000, of either sign. */
  lemma EndingBehindNumber(x: string, n: int, s: string, seqNumber: int, status: string)
    requires seqNumber > -1000
    requires x + "-" + Ending(n, s) == Padded(seqNumber, 4) + "-" + (Padded(0, 4) + "-" + status)
    ensures ReadsLikeEnd(status)
  {
    if seqNumber >= 0 {
      ValueOfPadded(seqNumber, 4);
      DigitsAreDashFree(Padded(seqNumber, 4));
      EndingInside(x, n, s, Padded(seqNumber, 4), status);
    } else {
      ValueOfPadded(-seqNumber, 3);
      DigitsAreDashFree(Padded(-seqNumber, 3));
      NoShortEnding(n, s, seqNumber, Padded(0, 4) + "-" + status);
      EndingBehindSign(x, n, s, Padded(-seqNumber, 3), status);
    }
  }

  lemma EndingBehindSign(x: string, n: int, s: string, digits: string, status: string)
    requires DashFree(digits) && digits != "" && Ending(n, s) != digits + "-" + (Padded(0, 4) + "-" + status)
    requires x + "-" + Ending(n, s) == ("-" + digits) + "-" + (Padded(0, 4) + "-" + status)
    ensures ReadsLikeEnd(status)
  {
    var rest := digits + "-" + (Padded(0, 4) + "-" + status);
    SignFirst(digits, Padded(0, 4) + "-" + status);
    var more := SplitBehindHead(x, Ending(n, s), "", rest);
    if !DashFree(x) {
      EndingInside(more, n, s, digits, status);
    }
  }

  lemma SignFirst(digits: string, tail: string)
    ensures ("-" + digits) + "-" + tail == "" + "-" + (digits + "-" + tail)
  {
  }

  /** No ending starts with a number of three digits. */
  lemma NoShortEnding(n: int, s: string, seqNumber: int, tail: string)
    requires -1000 < seqNumber < 0
    ensures Ending(n, s) != Padded(-seqNumber, 3) + "-" + tail
  {
    var digits := Padded(-seqNumber, 3);
    ValueOfPadded(-seqNumber, 3);
    FourDigits(-seqNumber);
    ShortFill(Digits(-seqNumber));
    DigitsAreDashFree(digits);
    if n >= 0 {
      ValueOfPadded(n, 4);
      DigitsAreDashFree(Padded(n, 4));
      if Ending(n, s) == digits + "-" + tail {
        SplitAtDash(Padded(n, 4), Padded(0, 4) + "-" + s, digits, tail);
      }
    } else {
      assert Ending(n, s)[0] == '-' && IsDigit((digits + "-" + tail)[0]);
    }
  }

  /** With dash-free zones, another tuple under the same code cuts the code inside the number or the status. */
  lemma OtherTupleCutsLater(m: string, u: string, n: int, s: string,
                            mainZone: string, subZone: string, seqNumber: int, status: string)
    requires DashFree(mainZone) && DashFree(subZone) && !(DashFree(m) && DashFree(u))
    requires Code(m, u, n, s) == Code(mainZone, subZone, seqNumber, status)
    ensures exists x :: x + "-" + Ending(n, s) == Ending(seqNumber, status)
  {
    var rest := SplitBehindHead(m, u + "-" + Ending(n, s), mainZone, subZone + "-" + Ending(seqNumber, status));
    if DashFree(m) {
      var x := SplitBehindHead(u, Ending(n, s), subZone, Ending(seqNumber, status));
      assert x + "-" + Ending(n, s) == Ending(seqNumber, status);
    } else {
      var x := SplitBehindHead(rest, u + "-" + Ending(n, s), subZone, Ending(seqNumber, status));
      if DashFree(rest) {
        assert u + "-" + Ending(n, s) == Ending(seqNumber, status);
      } else {
        JoinZone(x, u, Ending(n, s));
        assert (x + "-" + u) + "-" + Ending(n, s) == Ending(seqNumber, status);
      }
    }
  }

  /**
   * A code identifies its tuple among all tuples exactly when both zones are dash-free, the sequence
   * number is above -1000, and the status does not read like the end of a code.
   */
  lemma CodeIdentifiesIff(mainZone: string, subZone: string, seqNumber: int, status: string)
    ensures Identifies(mainZone, subZone, seqNumber, status) <==>
            DashFree(mainZone) && DashFree(subZone) && seqNumber > -1000 && !ReadsLikeEnd(status)
  {
    if !DashFree(mainZone) {
      var x, y := SplitFirst(mainZone);
      DashedMainCollides(x, y, subZone, seqNumber, status);
    } else if !DashFree(subZone) {
      var x, y := SplitFirst(subZone);
      DashedMainCollides(mainZone, x, y, seqNumber, status);
    } else if seqNumber <= -1000 {
      LongNegativeCollides(mainZone, subZone, seqNumber, status);
    } else if ReadsLikeEnd(status) {
      var u, n, s := DashedStatusCollides(mainZone, subZone, seqNumber, status);
    } else {
      forall m, u, n, s | Code(m, u, n, s) == Code(mainZone, subZone, seqNumber, status)
        ensures m == mainZone && u == subZone && n == seqNumber && s == status
      {
        if DashFree(m) && DashFree(u) {
          CodeIdentity(m, u, n, s, mainZone, subZone, seqNumber, status);
        } else {
          OtherTupleCutsLater(m, u, n, s, mainZone, subZone, seqNumber, status);
          var x :| x + "-" + Ending(n, s) == Ending(seqNumber, status);
          EndingBehindNumber(x, n, s, seqNumber, status);
        }
      }
    }
  }
}
