/**
 * `PetscFixFilename` (ghome.c): rewrites the directory separators of a
 * NUL-terminated file name in place so that they suit the host.  On a build
 * for Windows NT every '/' becomes '\'; on every other build every '\'
 * becomes '/'.  The build flag is a parameter of the model.
 */
module FileNames {
  import opened Results

  /** The buffer holding a C string: characters up to the first NUL are the name. */
  type Buffer = seq<char>

  const NUL: char := '\0'

  /** `PetscStrlen`: position of the first NUL, or the whole buffer if there is none. */
  function Strlen(s: Buffer): (n: nat)
    ensures n <= |s|
    ensures forall i :: 0 <= i < n ==> s[i] != NUL
    ensures n < |s| ==> s[n] == NUL
  {
    if |s| == 0 then 0
    else if s[0] == NUL then 0
    else 1 + Strlen(s[1..])
  }

  /** The separator the host uses. */
  function Native(nt: bool): char {
    if nt then '\\' else '/'
  }

  /** The separator that the host does not use and that is rewritten. */
  function Foreign(nt: bool): char {
    if nt then '/' else '\\'
  }

  /** What the loop does to one character of the name. */
  function FixChar(c: char, nt: bool): char {
    if c == Foreign(nt) then Native(nt) else c
  }

  /**
   * The loop of `PetscFixFilename` over the first `Strlen(file)` characters.
   * A null name (`None`) is returned untouched.
   */
  method FixFilename(file: Option<Buffer>, nt: bool) returns (r: Option<Buffer>)
    ensures file.None? <==> r.None?
    ensures file.Some? ==> |r.value| == |file.value|
    ensures file.Some? ==> forall i :: 0 <= i < |file.value| ==>
      (file.value[i] == Foreign(nt) && i < Strlen(file.value) ==> r.value[i] == Native(nt))
    ensures file.Some? ==> forall i :: 0 <= i < |file.value| ==>
      (file.value[i] != Foreign(nt) || i >= Strlen(file.value) ==> r.value[i] == file.value[i])
    ensures file.Some? ==> r == Some(Fixed(file.value, nt))
  {
    if file.None? {
      return None;
    }
    var s := file.value;
    var n := Strlen(s);
    var i := 0;
    while i < n
      invariant 0 <= i <= n
      invariant |s| == |file.value|
      invariant forall k :: 0 <= k < i ==> s[k] == FixChar(file.value[k], nt)
      invariant forall k :: i <= k < |s| ==> s[k] == file.value[k]
    {
      if s[i] == Foreign(nt) {
        s := s[i := Native(nt)];
      }
      i := i + 1;
    }
    assert s == Fixed(file.value, nt);
    return Some(s);
  }

  /** The name as a whole, position by position (the reference for the loop above). */
  function Fixed(s: Buffer, nt: bool): (r: Buffer)
    ensures |r| == |s|
  {
    var n := Strlen(s);
    seq(|s|, i requires 0 <= i < |s| => if i < n then FixChar(s[i], nt) else s[i])
  }

  /** The terminator stays where it was: the string length is unchanged. */
  lemma {:induction false} FixedKeepsLength(s: Buffer, nt: bool)
    ensures Strlen(Fixed(s, nt)) == Strlen(s)
  {
    var r := Fixed(s, nt);
    var n := Strlen(s);
    forall i | 0 <= i < n
      ensures r[i] != NUL
    {
    }
    StrlenUnique(r, n);
  }

  /** `Strlen` is determined by the first NUL. */
  lemma {:induction false} StrlenUnique(s: Buffer, n: nat)
    requires n <= |s|
    requires forall i :: 0 <= i < n ==> s[i] != NUL
    requires n < |s| ==> s[n] == NUL
    ensures Strlen(s) == n
  {
    if |s| == 0 || s[0] == NUL {
    } else {
      StrlenUnique(s[1..], n - 1);
    }
  }

  /** After the rewrite no foreign separator remains in the name. */
  lemma NoForeignSeparatorLeft(s: Buffer, nt: bool)
    ensures forall i :: 0 <= i < Strlen(Fixed(s, nt)) ==> Fixed(s, nt)[i] != Foreign(nt)
  {
    FixedKeepsLength(s, nt);
  }

  /** Applying the rewrite twice is the same as applying it once. */
  lemma FixedIdempotent(s: Buffer, nt: bool)
    ensures Fixed(Fixed(s, nt), nt) == Fixed(s, nt)
  {
    FixedKeepsLength(s, nt);
  }
}
