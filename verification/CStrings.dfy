/** Null-terminated strings. */
module CStrings {

  /** The string that an array of characters holds. */
  function CString<T(==)>(s: seq<T>, nul: T): seq<T> {
    if s == [] || s[0] == nul then [] else [s[0]] + CString(s[1..], nul)
  }

  lemma {:induction false} CStringOf<T>(name: seq<T>, rest: seq<T>, nul: T)
    requires nul !in name && rest != [] && rest[0] == nul
    ensures CString(name + rest, nul) == name
  {
    if name != [] {
      assert (name + rest)[1..] == name[1..] + rest;
      CStringOf(name[1..], rest, nul);
    } else {
      assert name + rest == rest;
    }
  }
}
