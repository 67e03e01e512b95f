/**
 * Presence notices: the text the relay sends when a user joins or leaves a
 * room, carrying the room's member count in decimal with singular or plural
 * wording.
 */
module Presence {

  /** Which membership change a notice reports. */
  datatype Change = Joined | Left

  predicate IsDigit(c: char) {
    '0' <= c <= '9'
  }

  predicate AllDigits(s: string) {
    forall i :: 0 <= i < |s| ==> IsDigit(s[i])
  }

  function DigitValue(c: char): int {
    c as int - '0' as int
  }

  function Digit(d: nat): (c: char)
    requires d < 10
    ensures IsDigit(c) && DigitValue(c) == d
  {
    ('0' as int + d) as char
  }

  /** The decimal rendering a template literal gives a non-negative integer. */
  function Decimal(n: nat): string {
    if n < 10 then [Digit(n)] else Decimal(n / 10) + [Digit(n % 10)]
  }

  /** The rendering is a non-empty run of digits with no leading zero. */
  lemma {:induction false} DecimalShape(n: nat)
    ensures Decimal(n) != [] && AllDigits(Decimal(n))
    ensures Decimal(n)[0] == '0' <==> n == 0
    decreases n
  {
    if n >= 10 {
      DecimalShape(n / 10);
      var d := Decimal(n / 10);
      assert Decimal(n)[0] == d[0];
      assert forall i :: 0 <= i < |d| ==> Decimal(n)[i] == d[i];
    }
  }

  /** The number a run of decimal digits denotes. */
  function ValueOf(s: string): int {
    if s == [] then 0 else 10 * ValueOf(s[..|s| - 1]) + DigitValue(s[|s| - 1])
  }

  /** The count printed in a notice is exactly the count that was computed. */
  lemma {:induction false} DecimalRoundTrip(n: nat)
    ensures ValueOf(Decimal(n)) == n
    decreases n
  {
    if n >= 10 {
      var d := Decimal(n / 10);
      assert (d + [Digit(n % 10)])[..|d|] == d;
      DecimalRoundTrip(n / 10);
    } else {
      assert [Digit(n)][..0] == [];
    }
  }

  function Lead(c: Change): string {
    match c
    case Joined => "A new user has joined. ("
    case Left => "A user has left. ("
  }

  /** The `s` of the plural is added only for counts above one. */
  function PluralSuffix(n: nat): string {
    if n > 1 then "s" else ""
  }

  /** What follows the count: the noun, plural or not, and the closing words. */
  function Tail(n: nat): string {
    " user" + PluralSuffix(n) + " in room)"
  }

  /** "A new user has joined. (N user[s] in room)" or "A user has left. (N user[s] in room)". */
  function Notice(c: Change, n: nat): string {
    Lead(c) + Decimal(n) + Tail(n)
  }

  predicate EndsWith(s: string, suffix: string) {
    |suffix| <= |s| && s[|s| - |suffix|..] == suffix
  }

  /**
   * Singular wording exactly when the count is at most one (only one occurs,
   * since a notice is never sent for an empty room), plural exactly when it
   * is above one.
   */
  lemma Wording(c: Change, n: nat)
    ensures EndsWith(Notice(c, n), " user in room)") <==> n <= 1
    ensures EndsWith(Notice(c, n), " users in room)") <==> n > 1
  {
    var head := Lead(c) + Decimal(n);
    DecimalShape(n);
    assert IsDigit(head[|head| - 1]);
    if n <= 1 {
      assert Tail(n) == " user in room)";
      SingularTail(head);
    } else {
      assert Tail(n) == " users in room)";
      PluralTail(head);
    }
  }

  lemma SingularTail(head: string)
    requires head != [] && IsDigit(head[|head| - 1])
    ensures EndsWith(head + " user in room)", " user in room)")
    ensures !EndsWith(head + " user in room)", " users in room)")
  {
    var s := head + " user in room)";
    assert s[|s| - 14..] == " user in room)";
    assert s[|s| - 15] == head[|head| - 1];
    assert s[|s| - 15..][0] == s[|s| - 15];
  }

  lemma PluralTail(head: string)
    ensures EndsWith(head + " users in room)", " users in room)")
    ensures !EndsWith(head + " users in room)", " user in room)")
  {
    var s := head + " users in room)";
    assert s[|s| - 15..] == " users in room)";
    assert s[|s| - 14..][0] == s[|s| - 14] == 'u';
  }

  /** Two digit runs each followed by a non-digit split a string at the same place. */
  lemma DigitRunsAlign(x: string, y: string, x': string, y': string)
    requires AllDigits(x) && AllDigits(x')
    requires y != [] && y' != [] && !IsDigit(y[0]) && !IsDigit(y'[0])
    requires x + y == x' + y'
    ensures x == x' && y == y'
  {
    assert forall k :: 0 <= k < |x| ==> IsDigit((x + y)[k]);
    assert forall k :: 0 <= k < |x'| ==> IsDigit((x' + y')[k]);
    assert !IsDigit((x + y)[|x|]) && !IsDigit((x' + y')[|x'|]);
    assert x == (x + y)[..|x|];
    assert x' == (x' + y')[..|x'|];
    assert y == (x + y)[|x|..];
    assert y' == (x' + y')[|x'|..];
  }

  /** A notice determines the count it carries: different counts never read alike. */
  lemma NoticeDeterminesCount(c: Change, a: nat, b: nat)
    requires Notice(c, a) == Notice(c, b)
    ensures a == b
  {
    AfterLead(c, a);
    AfterLead(c, b);
    DecimalShape(a);
    DecimalShape(b);
    DigitRunsAlign(Decimal(a), Tail(a), Decimal(b), Tail(b));
    DecimalRoundTrip(a);
    DecimalRoundTrip(b);
  }

  /** After the lead-in a notice is the count's digits followed by a tail that opens with a space. */
  lemma AfterLead(c: Change, n: nat)
    ensures |Lead(c)| <= |Notice(c, n)|
    ensures Notice(c, n)[|Lead(c)|..] == Decimal(n) + Tail(n)
    ensures Tail(n) != [] && !IsDigit(Tail(n)[0])
  {
    var p, x := Lead(c), Decimal(n) + Tail(n);
    assert Notice(c, n) == p + x;
    assert (p + x)[|p|..] == x;
    assert Tail(n)[0] == ' ';
  }

  /** The frame for a single member after a join. */
  lemma JoinedOneText()
    ensures Notice(Joined, 1) == "A new user has joined. (1 user in room)"
  {
    assert Decimal(1) == "1" && Tail(1) == " user in room)";
  }

  /** The frame for two members after a join. */
  lemma JoinedTwoText()
    ensures Notice(Joined, 2) == "A new user has joined. (2 users in room)"
  {
    assert Decimal(2) == "2" && Tail(2) == " users in room)";
  }

  /** The frame for a single member left behind. */
  lemma LeftOneText()
    ensures Notice(Left, 1) == "A user has left. (1 user in room)"
  {
    assert Decimal(1) == "1" && Tail(1) == " user in room)";
  }

  /** A join notice never reads like a leave notice. */
  lemma JoinAndLeaveDiffer(a: nat, b: nat)
    ensures Notice(Joined, a) != Notice(Left, b)
  {
    assert Notice(Joined, a)[2] == 'n';
    assert Notice(Left, b)[2] == 'u';
  }
}
