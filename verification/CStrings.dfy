/** C strings: arrays of characters that a NUL ends. */
module CStrings {
  import opened Text

  const NUL: char := '\0'

  /** The text of a C string. */
  type CString = s: string | NUL !in s witness ""

  /** The text before the first NUL. */
  function CText(bytes: seq<char>): string { bytes[..IndexOf(bytes, NUL)] }

  predicate Terminated(bytes: seq<char>) { IndexOf(bytes, NUL) < |bytes| }

  lemma {:induction false} CTextIs(bytes: seq<char>, text: string)
    requires |text| < |bytes| && bytes[..|text|] == text && bytes[|text|] == NUL && NUL !in text
    ensures CText(bytes) == text && Terminated(bytes)
  {
    IndexOfIs(bytes, NUL, |text|);
  }

  /** `strncpy(copy, src, n)`: at most `n` characters, padded with NULs; no NUL at all for a text
      of `n` characters or more. */
  function Copied(src: CString, n: nat): (cells: seq<char>)
    ensures |cells| == n
  {
    if n <= |src| then src[..n] else src + seq(n - |src|, _ => NUL)
  }

  /** The copy is a C string, and then the whole text, exactly if the text is shorter than the
      block. */
  lemma {:induction false} CopiedExactly(src: CString, n: nat)
    ensures Terminated(Copied(src, n)) <==> |src| < n
    ensures |src| < n ==> CText(Copied(src, n)) == src
  {
    var cells := Copied(src, n);
    if |src| < n {
      assert cells[..|src|] == src && cells[|src|] == NUL;
      CTextIs(cells, src);
    } else {
      assert NUL !in cells;
      assert cells[..n] == cells;
      IndexOfIs(cells, NUL, n);
    }
  }
}
