/** Return codes and string helpers of osip_port.c. */
module OsipText {

  const OSIP_SUCCESS: int := 0
  const OSIP_BADPARAMETER: int := -2
  const OSIP_SYNTAXERROR: int := -5

  predicate Blank(c: char)
  {
    c == ' ' || c == '\r' || c == '\n' || c == '\t'
  }

  /** osip_clrspace and osip_clrncpy: blanks at both ends go. */
  function Trim(s: string): (r: string)
    decreases |s|
  {
    if s == "" then ""
    else if Blank(s[0]) then Trim(s[1..])
    else if Blank(s[|s| - 1]) then Trim(s[..|s| - 1])
    else s
  }

  /** Only blanks are cut, and all at both ends: what is left is empty or begins and ends with something else. */
  lemma {:induction false} TrimCuts(s: string) returns (i: nat, j: nat)
    ensures i <= j <= |s| && Trim(s) == s[i..j]
    ensures forall k | 0 <= k < i || j <= k < |s| :: s[k] == ' ' || s[k] == '\r' || s[k] == '\n' || s[k] == '\t'
    ensures i < j ==> s[i] !in {' ', '\r', '\n', '\t'} && s[j - 1] !in {' ', '\r', '\n', '\t'}
    decreases |s|
  {
    if s == "" {
      i, j := 0, 0;
    } else if Blank(s[0]) {
      i, j := TrimCuts(s[1..]);
      assert s[1..][i..j] == s[i + 1..j + 1];
      i, j := i + 1, j + 1;
    } else if Blank(s[|s| - 1]) {
      i, j := TrimCuts(s[..|s| - 1]);
      assert s[..|s| - 1][i..j] == s[i..j];
    } else {
      i, j := 0, |s|;
    }
  }

  /** osip_tolower. */
  function ToLower(s: string): (r: string)
  {
    seq(|s|, i requires 0 <= i < |s| => if 'A' <= s[i] <= 'Z' then s[i] - 'A' + 'a' else s[i])
  }

  /** The 26 capital letters become small ones, and nothing else changes. */
  lemma {:induction false} ToLowerIs(s: string, i: nat)
    requires i < |s|
    ensures |ToLower(s)| == |s|
    ensures ToLower(s)[i] as int == if 0x41 <= s[i] as int <= 0x5A then s[i] as int + 0x20 else s[i] as int
  {
  }
}
