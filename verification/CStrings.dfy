// C strings in memory.
module CStrings {
  import opened Bits

  /** The text up to the terminator. */
  function CString(s: seq<Byte>): (c: seq<Byte>)
    ensures c <= s && 0 !in c && (|c| < |s| ==> s[|c|] == 0)
  {
    if s == [] || s[0] == 0 then [] else [s[0]] + CString(s[1..])
  }

  ghost predicate Terminated(s: seq<Byte>) {
    |CString(s)| < |s|
  }

  lemma {:induction false} CStringOf(b: seq<Byte>, rest: seq<Byte>)
    requires 0 !in b && rest != [] && rest[0] == 0
    ensures CString(b + rest) == b
  {
    if b == [] {
      assert b + rest == rest;
    } else {
      assert (b + rest)[1..] == b[1..] + rest;
      CStringOf(b[1..], rest);
    }
  }

  lemma EndsBefore(mem: seq<Byte>, text: seq<Byte>)
    requires CString(mem) == text && |text| < |mem|
    ensures Terminated(mem)
  {
  }
}
