/** Zero-terminated strings inside byte strings. */
module CStrings {
  import opened Bits

  /** The bytes up to the first zero, or all of them. */
  function CString(s: seq<byte>): seq<byte> {
    if s == [] || s[0] == 0 then [] else [s[0]] + CString(s[1..])
  }

  lemma {:induction false} CStringStarts(s: seq<byte>)
    ensures var name := CString(s); name <= s && 0 !in name && (|name| == |s| || s[|name|] == 0)
  {
    if s != [] && s[0] != 0 {
      CStringStarts(s[1..]);
      assert s == [s[0]] + s[1..];
    }
  }

  lemma {:induction false} CStringIs(s: seq<byte>, name: seq<byte>)
    requires 0 !in name && name <= s && (|name| == |s| || s[|name|] == 0)
    ensures CString(s) == name
  {
    if name != [] {
      assert s[1..][..|name| - 1] == name[1..];
      CStringIs(s[1..], name[1..]);
    }
  }
}
