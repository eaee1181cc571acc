/**
 * The phone-number validator of the House schema, the regular expression
 * `^(\+?88|0088)?0[0-9]{10}$`: an optional country prefix, then a local
 * number of a zero and ten more ASCII digits, then the end of the string.
 */
module Phone {

  /** `[0-9]`: an ASCII digit. */
  predicate IsDigit(c: char)
  {
    '0' <= c <= '9'
  }

  /** `[0-9]{n}$`: exactly n digits, then the end of the string. */
  predicate MatchDigits(s: string, n: nat)
    decreases n
  {
    if n == 0 then s == [] else |s| > 0 && IsDigit(s[0]) && MatchDigits(s[1..], n - 1)
  }

  /** `0[0-9]{10}$`: the local number, matched from its first character. */
  predicate MatchLocal(s: string)
  {
    |s| > 0 && s[0] == '0' && MatchDigits(s[1..], 10)
  }

  predicate StartsWith(s: string, prefix: string)
  {
    |prefix| <= |s| && s[..|prefix|] == prefix
  }

  /**
   * `/^(\+?88|0088)?0[0-9]{10}$/.test(v)`: one branch per way the optional
   * group can match, in the order a backtracking engine tries them.
   */
  predicate ValidPhone(v: string): (ok: bool)
    ensures ok ==> |v| in {11, 13, 14, 15} && IsLocalNumber(v[|v| - 11..])
    ensures ok ==> StartsWith(v, PrefixForLength(|v|))
  {
    (StartsWith(v, "+88") && (MatchLocalAt(v, 3); MatchLocal(v[3..])))
    || (StartsWith(v, "88") && (MatchLocalAt(v, 2); MatchLocal(v[2..])))
    || (StartsWith(v, "0088") && (MatchLocalAt(v, 4); MatchLocal(v[4..])))
    || (MatchLocalAt(v, 0); MatchLocal(v))
  }

  /** An eleven-character local number: a zero and ten more digits. */
  ghost predicate IsLocalNumber(t: string)
  {
    |t| == 11 && t[0] == '0' && forall i :: 0 <= i < 11 ==> IsDigit(t[i])
  }

  /** The only prefix an accepted number of this length can have. */
  function PrefixForLength(n: nat): (p: string)
    requires n in {11, 13, 14, 15}
    ensures |p| + 11 == n
  {
    if n == 11 then "" else if n == 13 then "88" else if n == 14 then "+88" else "0088"
  }

  /** `[0-9]{n}$` matches exactly the strings of n digits. */
  lemma {:induction false} MatchDigitsExactly(s: string, n: nat)
    ensures MatchDigits(s, n) <==> |s| == n && forall i :: 0 <= i < |s| ==> IsDigit(s[i])
  {
    if n > 0 && |s| > 0 {
      MatchDigitsExactly(s[1..], n - 1);
      assert forall i :: 1 <= i < |s| ==> s[i] == s[1..][i - 1];
    }
  }

  /** The local-number part of the regular expression matches exactly the eleven-character local numbers. */
  lemma MatchLocalExactly(t: string)
    ensures MatchLocal(t) <==> IsLocalNumber(t)
  {
    if |t| > 0 {
      MatchDigitsExactly(t[1..], 10);
      assert forall i :: 1 <= i < |t| ==> t[i] == t[1..][i - 1];
    }
  }

  /** A local number matched from position k ends the string and is its last eleven characters. */
  lemma MatchLocalAt(v: string, k: nat)
    requires k <= |v|
    ensures MatchLocal(v[k..]) <==> |v| == k + 11 && IsLocalNumber(v[|v| - 11..])
  {
    MatchLocalExactly(v[k..]);
    if |v| == k + 11 {
      assert v[k..] == v[|v| - 11..];
    }
  }

  /**
   * The accepted strings are exactly: length 11, 13, 14 or 15; the last
   * eleven characters a zero and ten digits; and before them nothing, "88",
   * "+88" or "0088" according to the length.
   */
  lemma AcceptedShapes(v: string)
    ensures ValidPhone(v) <==>
              |v| in {11, 13, 14, 15} &&
              v[..|v| - 11] == PrefixForLength(|v|) &&
              IsLocalNumber(v[|v| - 11..])
  {
    MatchLocalAt(v, 0);
    if |v| >= 2 { MatchLocalAt(v, 2); }
    if |v| >= 3 { MatchLocalAt(v, 3); }
    if |v| >= 4 { MatchLocalAt(v, 4); }
  }

  /**
   * A non-digit anywhere in the last ten characters, or anything but a zero
   * in the eleventh from the end, makes the validator fail; so does every
   * length other than 11, 13, 14 and 15.
   */
  lemma RejectsMalformed(v: string, i: int)
    requires |v| !in {11, 13, 14, 15} ||
             (|v| - 10 <= i < |v| && !IsDigit(v[i])) ||
             (|v| >= 11 && i == |v| - 11 && v[i] != '0')
    ensures !ValidPhone(v)
  {
    AcceptedShapes(v);
  }

  /** Each of the four shapes is accepted: a local number with any of the prefixes. */
  lemma AcceptsEachPrefix(prefix: string, local: string)
    requires prefix in {"", "88", "+88", "0088"}
    requires IsLocalNumber(local)
    ensures ValidPhone(prefix + local)
  {
    var v := prefix + local;
    assert v[|prefix|..] == local;
    assert v[..|prefix|] == prefix;
    AcceptedShapes(v);
  }
}
