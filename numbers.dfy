/** Phone numbers as the registry receives them from its callers and as it
    stores them: the conversion and validation done by tel_num_to_string
    (maptel.cc). A caller's number is a C string, modelled as the sequence of
    characters readable from the pointer onward. */
module TelNumbers {

  /** Longest accepted number, in digits. The bound is declared in maptel.h,
      which is not part of this model; 22 is the value chosen here. */
  const TEL_NUM_MAX_LEN: nat := 22

  /** The C string terminator. */
  const TERMINATOR: char := '\0'

  predicate IsDigit(c: char) {
    '0' <= c <= '9'
  }

  /** A number as the tables store it: one to TEL_NUM_MAX_LEN digits followed
      by the terminator, which tel_num_to_string keeps in the string it
      returns. */
  predicate IsStoredNumber(k: string) {
    2 <= |k| <= TEL_NUM_MAX_LEN + 1 &&
    k[|k| - 1] == TERMINATOR &&
    forall i :: 0 <= i < |k| - 1 ==> IsDigit(k[i])
  }

  /** Position of the first terminator in s, or |s| when s holds none. */
  function NulIndex(s: seq<char>): (n: nat)
    ensures n <= |s|
    ensures n < |s| ==> s[n] == TERMINATOR
    ensures forall i :: 0 <= i < n ==> s[i] != TERMINATOR
  {
    if s == [] || s[0] == TERMINATOR then 0 else 1 + NulIndex(s[1..])
  }

  /** The scan in tel_num_to_string reads at most TEL_NUM_MAX_LEN + 1
      characters and stops after the first terminator; it stays inside the
      caller's memory exactly when that memory is terminated or long enough. */
  predicate Readable(s: seq<char>) {
    TERMINATOR in s || |s| > TEL_NUM_MAX_LEN
  }

  /** s is a valid number: every check of tel_num_to_string passes (it is not
      empty, it is terminated within TEL_NUM_MAX_LEN + 1 characters and every
      character before the terminator is a digit). */
  predicate IsTelNum(s: seq<char>): (valid: bool)
    ensures valid ==> Readable(s) && |s| >= 2 && IsDigit(s[0])
  {
    var n := NulIndex(s);
    1 <= n <= TEL_NUM_MAX_LEN && n < |s| &&
    forall i :: 0 <= i < n ==> IsDigit(s[i])
  }

  function Min(a: nat, b: nat): (m: nat)
    ensures m <= a && m <= b && (m == a || m == b)
  {
    if a <= b then a else b
  }

  /** The string tel_num_to_string builds from s: every character it scans,
      the terminator included when the scan reaches it. */
  function TelNumString(s: seq<char>): (ans: string)
    requires Readable(s)
    ensures |ans| <= TEL_NUM_MAX_LEN + 1 && |ans| <= |s| && ans == s[..|ans|]
    ensures forall i :: 0 <= i < |ans| - 1 ==> ans[i] != TERMINATOR
    ensures TERMINATOR in ans <==> NulIndex(s) <= TEL_NUM_MAX_LEN
  {
    s[..Min(NulIndex(s) + 1, TEL_NUM_MAX_LEN + 1)]
  }

  /** tel_num_to_string: copies the number at s into a string, one character
      at a time, and reports whether the checks that the debug build asserts
      all hold. */
  method TelNumToString(s: seq<char>) returns (ans: string, wellFormed: bool)
    requires Readable(s)
    ensures ans == TelNumString(s)
    ensures wellFormed <==> IsTelNum(s)
  {
    ans := [];
    var nonEmpty := s[0] != TERMINATOR;
    var allDigits := true;
    var terminalZeroReached := false;
    var i := 0;
    while i < TEL_NUM_MAX_LEN + 1
      invariant i <= TEL_NUM_MAX_LEN + 1
      invariant i <= NulIndex(s)
      invariant ans == s[..i]
      invariant allDigits <==> forall j :: 0 <= j < i ==> IsDigit(s[j])
      invariant !terminalZeroReached
    {
      ans := ans + [s[i]];
      if s[i] == TERMINATOR {
        terminalZeroReached := true;
        break;
      }
      allDigits := allDigits && IsDigit(s[i]);
      i := i + 1;
    }
    wellFormed := nonEmpty && allDigits && terminalZeroReached;
  }

  /** Every non-empty run of at most TEL_NUM_MAX_LEN digits followed by the
      terminator is accepted, whatever memory follows it, and converts to
      exactly those digits and the terminator. */
  lemma {:induction false} AcceptsDigitRun(d: string, rest: seq<char>)
    requires 1 <= |d| <= TEL_NUM_MAX_LEN
    requires forall i :: 0 <= i < |d| ==> IsDigit(d[i])
    ensures IsTelNum(d + [TERMINATOR] + rest)
    ensures TelNumString(d + [TERMINATOR] + rest) == d + [TERMINATOR]
  {
    var s := d + [TERMINATOR] + rest;
    assert s[|d|] == TERMINATOR;
  }

  /** Conversely, every accepted input is such a run followed by other memory,
      and converts to a stored number: the digits followed by the terminator. */
  lemma AcceptedIsDigitRun(s: seq<char>)
    requires IsTelNum(s)
    ensures Readable(s)
    ensures IsStoredNumber(TelNumString(s))
    ensures TelNumString(s) == s[..NulIndex(s)] + [TERMINATOR]
    ensures s == TelNumString(s) + s[|TelNumString(s)|..]
  {
    var n := NulIndex(s);
    assert s[n] == TERMINATOR;
    assert s[..n + 1] == s[..n] + [s[n]];
  }
}
