/** How far %s reads: strings in memory that need not hold a terminator. */
module PrintfReads {
  import opened Util
  import opened PrintfFormat
  import opened PrintfText

  /** `_strnlen_s`, and how many characters it looks at; one outside of the memory ends the model's run. */
  method Strnlen(mem: string, maxsize: nat) returns (l: nat, read: nat)
    ensures l == StrnlenOf(TextLength(mem), maxsize)
    ensures read == Min(TextLength(mem), maxsize) + 1
  {
    var s, left := 0, maxsize;
    while s < |mem| && mem[s] != NUL && left != 0
      invariant s <= |mem| && s + left == maxsize
      invariant forall k :: 0 <= k < s ==> mem[k] != NUL
    {
      left := left - 1;
      s := s + 1;
    }
    l, read := s % TWO_32, s + 1;
  }

  /** The output loop of %s. */
  method ReadShown(mem: string, f: Fields) returns (shown: string, read: nat)
    ensures shown == Shown(CString(mem), f)
    ensures read == (if f.flags.precision then Min(TextLength(mem), f.precision) else TextLength(mem)) + 1
  {
    var p, precision := 0, f.precision;
    shown := "";
    while p < |mem| && mem[p] != NUL && (!f.flags.precision || precision != 0)
      invariant p <= |mem| && shown == mem[..p]
      invariant f.flags.precision ==> p + precision == f.precision
      invariant forall k :: 0 <= k < p ==> mem[k] != NUL
    {
      precision := if f.flags.precision then precision - 1 else precision;
      shown := shown + [mem[p]];
      p := p + 1;
    }
    read := p + 1;
  }

  /** How many characters a %s looks at. */
  function ReadOf(mem: string, f: Fields): nat {
    var n := TextLength(mem);
    Max(Min(n, ScanBound(f)), if f.flags.precision then Min(n, f.precision) else n) + 1
  }

  /** Both loops of %s: the columns, the characters to put out, and how many were looked at. */
  method ReadString(mem: string, f: Fields) returns (l: nat, shown: string, read: nat)
    ensures l == ShownColumns(CString(mem), f) && shown == Shown(CString(mem), f)
    ensures read == ReadOf(mem, f)
  {
    l, read := Strnlen(mem, ScanBound(f));
    if f.flags.precision {
      l := if l < f.precision then l else f.precision;
    }
    var read';
    shown, read' := ReadShown(mem, f);
    read := Max(read, read');
  }

  /** What the standard asks of the memory: a terminator, or a precision not greater than its size. */
  predicate Lawful(mem: string, f: Fields) {
    NUL in mem || (f.flags.precision && f.precision <= |mem|)
  }

  lemma TextLengthIff(mem: string)
    ensures TextLength(mem) < |mem| <==> NUL in mem
  {}

  /**
   Main result: a lawful %s stays inside the memory except when nothing terminates it and the precision
   is zero or the size of the memory: zero lets the length scan run on, and both loops look at one
   character past the precision before they count.
   */
  lemma StaysInsideIff(mem: string, f: Fields)
    requires |mem| < TWO_64 && (!f.flags.precision ==> f.precision == 0) && Lawful(mem, f)
    ensures ReadOf(mem, f) <= |mem| <==> NUL in mem || (f.precision != 0 && f.precision != |mem|)
  {
    TextLengthIff(mem);
  }

  /** The failing cases: two characters without a terminator, at precision two and at precision zero. */
  lemma ReadsOutside(f: Fields)
    requires f.flags.precision && (f.precision == 2 || f.precision == 0)
    ensures Lawful("ab", f) && ReadOf("ab", f) == 3 > |"ab"|
  {
    assert "ab"[1..] == "b" && "b"[1..] == "";
    assert TextLength("ab") == 1 + TextLength("b") == 2;
  }

  /** No character past the precision is looked at exactly when the text is shorter than it. */
  lemma ReadsWithinPrecisionIff(mem: string, f: Fields)
    requires |mem| < TWO_64 && f.flags.precision
    ensures ReadOf(mem, f) <= f.precision <==> TextLength(mem) < f.precision
  {}
}
