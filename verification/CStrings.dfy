/** Text that passes through `char*`: it ends at the first NUL. */
module CStrings {

  const NUL: char := 0 as char

  function CStr(s: string): (r: string)
    ensures r <= s && NUL !in r
    ensures |r| < |s| ==> s[|r|] == NUL
  {
    if s == "" || s[0] == NUL then ""
    else
      var r := CStr(s[1..]);
      assert s == [s[0]] + s[1..];
      [s[0]] + r
  }

  /** Nothing is lost exactly if there is no NUL. */
  lemma CStrKeeps(s: string)
    ensures CStr(s) == s <==> NUL !in s
  {
  }
}
