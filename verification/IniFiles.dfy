/** The `FILE*` operations minGlue.h maps onto: reading with `fgets`, seeking and `fputs`. */
module IniFiles {
  import opened CString
  import opened Chunks

  /** A file opened for reading. */
  class InFile {
    const text: string
    var pos: nat

    ghost predicate Valid()
      reads this
    {
      pos <= |text| && IsStr(text)
    }

    /** The file position is the start of piece `i`. */
    ghost predicate At(i: nat)
      reads this
    {
      Valid() && i <= |Pieces(text)| && pos == Off(Pieces(text), i)
    }

    constructor (text: string)
      requires IsStr(text)
      ensures this.text == text && pos == 0 && Valid()
    {
      this.text, pos := text, 0;
    }

    /** `fgets(buf + off, size, file)` */
    method Read(buf: array<char>, off: nat, size: nat) returns (ok: bool)
      requires Valid() && size > 0 && off + size <= buf.Length
      modifies this`pos, buf
      ensures Valid() && ok == (old(pos) < |text|)
      ensures !ok ==> pos == old(pos) && buf[..] == old(buf[..])
      ensures ok ==> pos == old(pos) + LineLen(text[old(pos)..], size - 1)
      ensures ok ==> StrAt(buf, off, text[old(pos)..pos])
      ensures forall i :: 0 <= i < off ==> buf[i] == old(buf[i])
    {
      ok := pos < |text|;
      if ok {
        var n := LineLen(text[pos..], size - 1);
        forall k | 0 <= k < n {
          buf[off + k] := text[pos + k];
        }
        buf[off + n] := NUL;
        pos := pos + n;
        assert buf[off..off + n] == text[pos - n..pos];
        PartIsStr(text, pos - n, pos);
      }
    }

    /** `fsetpos` */
    method Seek(mark: nat)
      requires Valid() && mark <= |text|
      modifies this`pos
      ensures Valid() && pos == mark
    {
      pos := mark;
    }
  }

  /** A file opened for writing. */
  class OutFile {
    var text: string

    constructor ()
      ensures text == []
    {
      text := [];
    }

    /** `fputs` */
    method Write(buf: array<char>, ghost s: string)
      requires StrAt(buf, 0, s)
      modifies this
      ensures text == old(text) + s
    {
      var n := StrLen(buf, 0, s);
      text := text + buf[..n];
    }

    method WriteText(s: string)
      modifies this
      ensures text == old(text) + s
    {
      text := text + s;
    }
  }
}
