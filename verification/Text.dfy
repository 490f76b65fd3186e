/** The string operations the source patcher uses, on single lines. */
module Text {
  predicate IsBlank(c: char) {
    c == ' ' || c == '\t' || c == '\n' || c == '\r' || c == '\U{B}' || c == '\U{C}'
  }

  predicate IsWord(c: char) {
    ('a' <= c <= 'z') || ('A' <= c <= 'Z') || ('0' <= c <= '9') || c == '_'
  }

  /** A name: word characters, the first of them no digit. */
  predicate IsName(w: string) {
    w != "" && (forall i :: 0 <= i < |w| ==> IsWord(w[i])) && !('0' <= w[0] <= '9')
  }

  predicate OccursAt(s: string, pattern: string, i: nat) {
    i + |pattern| <= |s| && s[i..i + |pattern|] == pattern
  }

  /** `pattern in s`. */
  predicate Contains(s: string, pattern: string) {
    exists i :: 0 <= i <= |s| && OccursAt(s, pattern, i)
  }

  /** The first place the pattern occurs, or one past the end. */
  function Find(s: string, pattern: string, i: nat): (k: nat)
    requires i <= |s|
    ensures i <= k <= |s| + 1
    ensures k <= |s| ==> OccursAt(s, pattern, k)
    ensures forall m :: i <= m < k && m <= |s| ==> !OccursAt(s, pattern, m)
    decreases |s| - i
  {
    if OccursAt(s, pattern, i) then i
    else if i == |s| then |s| + 1
    else Find(s, pattern, i + 1)
  }

  /** `s.replace(old, new, 1)`. */
  function ReplaceFirst(s: string, pattern: string, replacement: string): string {
    var k := Find(s, pattern, 0);
    if k <= |s| then s[..k] + replacement + s[k + |pattern|..] else s
  }

  function Count(s: string, c: char): nat {
    if s == "" then 0 else (if s[0] == c then 1 else 0) + Count(s[1..], c)
  }

  function SkipBlanks(s: string): string {
    if s != "" && IsBlank(s[0]) then SkipBlanks(s[1..]) else s
  }

  function SkipWord(s: string): (r: string)
    ensures |r| <= |s|
  {
    if s != "" && IsWord(s[0]) then SkipWord(s[1..]) else s
  }

  function LeadingBlanks(s: string): string {
    if s != "" && IsBlank(s[0]) then [s[0]] + LeadingBlanks(s[1..]) else ""
  }

  function Strip(s: string): string {
    SkipBlanks(RStrip(s))
  }

  function RStrip(s: string): (r: string)
    ensures |r| <= |s|
    ensures r == "" || !IsBlank(r[|r| - 1])
  {
    if s != "" && IsBlank(s[|s| - 1]) then RStrip(s[..|s| - 1]) else s
  }
}
