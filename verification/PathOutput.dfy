/** Sized output into a buffer: writes stop at the buffer size, the length goes on counting. */
module PathOutput {
  import opened PathSegments

  function Min(a: nat, b: nat): nat {
    if a < b then a else b
  }

  /** `mem` with the beginning of `out` written over it, as far as `size` allows. */
  function Written(mem: seq<char>, size: nat, out: string): (r: seq<char>)
    requires Min(|out|, size) <= |mem|
    ensures |r| == |mem|
  {
    out[..Min(|out|, size)] + mem[Min(|out|, size)..]
  }

  lemma WrittenNothing(mem: seq<char>, size: nat)
    ensures Written(mem, size, "") == mem
  {
  }

  /** `mem` after all of `out` was written and terminated. */
  function Emitted(mem: seq<char>, size: nat, out: string): (r: seq<char>)
    requires size <= |mem|
    ensures |r| == |mem|
  {
    if size == 0 then mem else Written(mem, size, out)[Min(|out|, size - 1) := NUL]
  }

  /** What a caller finds: as much of the output as fits before the final NUL, and nothing else changed. */
  lemma EmittedText(mem: seq<char>, size: nat, out: string)
    requires size <= |mem| && NUL !in out
    ensures size > 0 ==> Terminated(Emitted(mem, size, out))
    ensures size > 0 ==> Text(Emitted(mem, size, out)) == out[..Min(|out|, size - 1)]
    ensures forall i :: size <= i < |mem| || |out| < i < |mem| ==> Emitted(mem, size, out)[i] == mem[i]
  {
    if size > 0 {
      var r, m := Emitted(mem, size, out), Min(|out|, size - 1);
      assert forall i :: 0 <= i < m ==> r[i] == out[i] && out[i] in out;
      StrLenIs(r, m);
      assert r[..m] == out[..m];
    }
  }

  /** The memory after writing `str` at `position`. */
  function Overlay(mem: seq<char>, size: nat, position: nat, str: string): seq<char>
    requires size <= |mem|
  {
    if position >= size then mem
    else
      var n := Min(|str|, size - position);
      mem[..position] + str[..n] + mem[position + n..]
  }

  lemma OverlayExtends(mem: seq<char>, size: nat, out: string, str: string)
    requires size <= |mem|
    ensures Overlay(Written(mem, size, out), size, |out|, str) == Written(mem, size, out + str)
  {
    if |out| < size {
      assert out[..|out|] == out;
    } else {
      assert (out + str)[..size] == out[..size];
    }
  }

  /** Writes as much of `str` as the buffer takes and answers its whole length. */
  method OutputSized(buffer: array<char>, size: nat, position: nat, str: string) returns (length: nat)
    requires size <= buffer.Length
    modifies buffer
    ensures length == |str|
    ensures buffer[..] == Overlay(old(buffer[..]), size, position, str)
  {
    length := |str|;
    var amount := 0;
    if size > position + length {
      amount := length;
    } else if size > position {
      amount := size - position;
    }
    if amount > 0 {
      forall i | 0 <= i < amount {
        buffer[position + i] := str[i];
      }
    }
    ghost var was, now := old(buffer[..]), Overlay(old(buffer[..]), size, position, str);
    assert forall i :: 0 <= i < buffer.Length ==>
             buffer[i] == if position <= i < position + amount then str[i - position] else was[i];
    assert |now| == |was|;
    assert forall i :: 0 <= i < |now| ==> now[i] == if position <= i < position + amount then str[i - position] else was[i];
  }

  /** The same, for a writer that appends to what it has written so far. */
  method Append(buffer: array<char>, size: nat, position: nat, str: string,
                ghost mem: seq<char>, ghost out: string) returns (length: nat)
    requires size <= buffer.Length == |mem|
    requires buffer[..] == Written(mem, size, out) && position == |out|
    modifies buffer
    ensures length == |str| && buffer[..] == Written(mem, size, out + str)
  {
    OverlayExtends(mem, size, out, str);
    length := OutputSized(buffer, size, position, str);
  }

  /** Places the final NUL; `out` may leave one character of what was written behind. */
  method TerminateOutput(buffer: array<char>, size: nat, position: nat,
                         ghost mem: seq<char>, ghost out: string, ghost left: string)
    requires size <= buffer.Length == |mem|
    requires buffer[..] == Written(mem, size, out + left) && position == |out| && |left| <= 1
    modifies buffer
    ensures buffer[..] == Emitted(mem, size, out)
  {
    Terminates(mem, size, out, left);
    if size > 0 {
      if position >= size {
        buffer[size - 1] := NUL;
      } else {
        buffer[position] := NUL;
      }
    }
  }

  lemma Terminates(mem: seq<char>, size: nat, out: string, left: string)
    requires size <= |mem| && |left| <= 1
    ensures Emitted(mem, size, out) ==
            if size == 0 then Written(mem, size, out + left)
            else Written(mem, size, out + left)[Min(|out|, size - 1) := NUL]
  {
    if |out| >= size {
      assert (out + left)[..size] == out[..size];
    }
  }
}
