/**
 * The sanity check that the encoder applies to every input line before it
 * converts the line into a value: an optional leading '-', then digits, then
 * a newline, then the end of the string.
 */
module LineCheck {

  predicate IsDigit(c: char) {
    '0' <= c <= '9'
  }

  /** What C sees as the string held in `buf`: everything before the first NUL. */
  function CString(buf: seq<char>): (s: seq<char>)
    ensures s <= buf && '\0' !in s
    ensures |s| < |buf| ==> buf[|s|] == '\0'
  {
    if buf == [] || buf[0] == '\0' then [] else [buf[0]] + CString(buf[1..])
  }

  /** The line without its leading '-', if it has one. */
  function AfterSign(s: seq<char>): seq<char> {
    if |s| > 0 && s[0] == '-' then s[1..] else s
  }

  /**
   * A line the encoder converts: an optional '-', then digits, then '\n' as
   * the last character. The digits may be absent: "\n" and "-\n" pass.
   */
  predicate DecimalLine(s: seq<char>) {
    var body := AfterSign(s);
    |body| > 0 && body[|body| - 1] == '\n' && forall i :: 0 <= i < |body| - 1 ==> IsDigit(body[i])
  }

  /**
   * The validator run on the line buffer `inbuf` of `maxLine + 1` characters
   * that fgets has just filled. The last character is forced to NUL first, so
   * a line that filled the buffer without a newline is refused.
   */
  method CheckLine(inbuf: seq<char>, maxLine: nat) returns (ok: bool)
    requires |inbuf| == maxLine + 1
    ensures ok <==> DecimalLine(CString(inbuf[..maxLine]))
  {
    var buf := inbuf[maxLine := '\0'];
    assert buf[..maxLine] == inbuf[..maxLine];
    CStringPrefix(buf, maxLine);
    var p := if buf[0] == '-' then 1 else 0;
    ghost var d := p;
    while buf[p] != '\0' && IsDigit(buf[p]) && p < maxLine
      invariant d <= p <= maxLine
      invariant forall i :: 0 <= i < p ==> buf[i] != '\0'
      invariant forall i :: d <= i < p ==> IsDigit(buf[i])
      decreases maxLine - p
    {
      p := p + 1;
    }
    ok := buf[p] == '\n' && buf[p + 1] == '\0';
    CheckLineEnd(buf, maxLine, d, p);
  }

  /** Where the scan over the digits stops decides the check. */
  lemma CheckLineEnd(buf: seq<char>, maxLine: nat, d: nat, p: nat)
    requires |buf| == maxLine + 1 && buf[maxLine] == '\0'
    requires d == (if buf[0] == '-' then 1 else 0)
    requires d <= p <= maxLine
    requires forall i :: 0 <= i < p ==> buf[i] != '\0'
    requires forall i :: d <= i < p ==> IsDigit(buf[i])
    requires buf[p] == '\0' || !IsDigit(buf[p]) || p == maxLine
    ensures buf[p] == '\n' ==> p < maxLine
    ensures (buf[p] == '\n' && buf[p + 1] == '\0') <==> DecimalLine(CString(buf))
  {
    CStringLength(buf, p);
    if buf[p] == '\n' {
      CStringLength(buf, p + 1);
    }
    DecimalLineEnd(CString(buf), d, p);
  }

  /**
   * After the digits: with every character from d to p a digit and the one at p
   * not, the line is well formed exactly when p holds its last character, '\n'.
   */
  lemma DecimalLineEnd(s: seq<char>, d: nat, p: nat)
    requires d == (if |s| > 0 && s[0] == '-' then 1 else 0)
    requires d <= p <= |s|
    requires forall i :: d <= i < p ==> IsDigit(s[i])
    requires p == |s| || !IsDigit(s[p])
    ensures DecimalLine(s) <==> p + 1 == |s| && s[p] == '\n'
  {
    var body := AfterSign(s);
    assert body == s[d..];
    if p + 1 < |s| {
      assert body[p - d] == s[p];
    }
  }

  /** A prefix free of NUL is part of the string, which ends at the next NUL. */
  lemma CStringLength(buf: seq<char>, p: nat)
    requires p < |buf|
    requires forall i :: 0 <= i < p ==> buf[i] != '\0'
    ensures p <= |CString(buf)|
    ensures p == |CString(buf)| <==> buf[p] == '\0'
  {
    CStringAt(buf, p);
    if p > 0 {
      CStringAt(buf, p - 1);
    }
  }

  /** Forcing a NUL at position n keeps at most the first n characters of the string. */
  lemma {:induction false} CStringPrefix(buf: seq<char>, n: nat)
    requires n < |buf| && buf[n] == '\0'
    ensures CString(buf) == CString(buf[..n])
  {
    if n > 0 && buf[0] != '\0' {
      assert buf[1..][..n - 1] == buf[1..n];
      assert buf[..n][1..] == buf[1..n];
      CStringPrefix(buf[1..], n - 1);
    }
  }

  /** Position p lies in the string exactly when no NUL comes at or before it. */
  lemma {:induction false} CStringAt(buf: seq<char>, p: nat)
    requires p < |buf|
    ensures p < |CString(buf)| <==> forall i :: 0 <= i <= p ==> buf[i] != '\0'
  {
    if p > 0 && buf[0] != '\0' {
      CStringAt(buf[1..], p - 1);
      assert forall i :: 1 <= i <= p ==> buf[i] == buf[1..][i - 1];
    }
  }
}
