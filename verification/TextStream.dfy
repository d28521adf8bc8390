/** fwrite: the conversion of LF to CR LF on streams in text mode. */
module TextStream {
  import opened CInt
  import opened Memory

  const CR: byte := 13
  const LF: byte := 10
  const BUFSIZE := 8192

  /** The text with a CR before every LF that does not follow a CR; `prev` is
      the character before the text. */
  function WithCr(prev: byte, s: seq<byte>): seq<byte>
    decreases |s|
  {
    if s == [] then []
    else if s[0] == LF && prev != CR then [CR, LF] + WithCr(LF, s[1..])
    else [s[0]] + WithCr(s[0], s[1..])
  }

  /** The last character of a text that follows `prev`. */
  function LastOf(prev: byte, s: seq<byte>): byte {
    if s == [] then prev else s[|s| - 1]
  }

  /** The character before place `i`. */
  function CharBefore(prev: byte, s: seq<byte>, i: int): byte
    requires 0 <= i < |s|
  {
    if i == 0 then prev else s[i - 1]
  }

  /** Every line feed, 10, follows a carriage return, 13. */
  predicate Clean(prev: byte, s: seq<byte>) {
    forall i :: 0 <= i < |s| && s[i] == 10 ==> CharBefore(prev, s, i) == 13
  }

  lemma CleanStep(prev: byte, s: seq<byte>)
    requires s != []
    ensures Clean(prev, s) <==> !(s[0] == LF && prev != CR) && Clean(s[0], s[1..])
  {
  }

  /** The conversion makes a text clean and leaves a clean text alone. */
  lemma {:induction false} WithCrCleans(prev: byte, s: seq<byte>)
    ensures Clean(prev, WithCr(prev, s))
    ensures WithCr(prev, s) == s <==> Clean(prev, s)
    ensures LastOf(prev, WithCr(prev, s)) == LastOf(prev, s)
    decreases |s|
  {
    if s != [] {
      hide Clean;
      WithCrCleans(s[0], s[1..]);
      CleanStep(prev, s);
      var t, u := WithCr(s[0], s[1..]), WithCr(prev, s);
      CleanStep(prev, u);
      if s[0] == LF && prev != CR {
        assert u == [CR, LF] + t && u[0] == CR && u[1..] == [LF] + t;
        CleanStep(CR, u[1..]);
        assert u[1..][1..] == t;
      } else {
        assert u == [s[0]] + t && u[1..] == t;
        assert s == [s[0]] + s[1..];
      }
    } else {
      assert WithCr(prev, s) == s;
    }
  }

  /** A text without the CRs that stand before an LF. */
  function Stripped(s: seq<byte>): seq<byte> {
    if s == [] then []
    else if s[0] == 13 && |s| > 1 && s[1] == 10 then Stripped(s[1..])
    else [s[0]] + Stripped(s[1..])
  }

  /** Nothing else is put in, and nothing is left out. */
  lemma {:induction false} WithCrAddsOnly(prev: byte, s: seq<byte>)
    ensures Stripped(WithCr(prev, s)) == Stripped(s)
    decreases |s|
  {
    if s == [] {
    } else {
      var t, u := WithCr(s[0], s[1..]), WithCr(prev, s);
      WithCrAddsOnly(s[0], s[1..]);
      if s[0] == LF && prev != CR {
        assert u == [CR, LF] + t && u[1..] == [LF] + t && u[1..][1..] == t;
      } else {
        assert u == [s[0]] + t && u[1..] == t;
        assert |s| > 1 ==> s[1] == s[1..][0];
      }
    }
  }

  /** Converting piece by piece is converting the whole. */
  lemma {:induction false} WithCrConcat(prev: byte, s: seq<byte>, t: seq<byte>)
    ensures WithCr(prev, s + t) == WithCr(prev, s) + WithCr(LastOf(prev, s), t)
    decreases |s|
  {
    if s == [] {
      assert s + t == t;
    } else {
      assert (s + t)[1..] == s[1..] + t;
      WithCrConcat(s[0], s[1..], t);
      assert LastOf(s[0], s[1..]) == LastOf(prev, s);
    }
  }

  /** The first character decides how the conversion goes on. */
  lemma WithCrStep(prev: byte, s: seq<byte>)
    requires s != []
    ensures s[0] == LF && prev != CR ==> WithCr(prev, s) == [CR] + WithCr(CR, s)
    ensures !(s[0] == LF && prev != CR) ==> WithCr(prev, s) == [s[0]] + WithCr(s[0], s[1..])
  {
  }

  lemma PutChar(before: seq<byte>, c: byte, rest: seq<byte>, all: seq<byte>, rest': seq<byte>)
    requires before + rest == all && rest == [c] + rest'
    ensures before + [c] + rest' == all
  {
  }

  /** A FILE, with the bytes that its file has received. */
  class Stream {
    var binary: bool
    var lastChar: byte
    var error: bool
    var file: seq<byte>
    /** How many writes of the operating system have failed. */
    ghost var failures: nat

    constructor (binary: bool)
      ensures this.binary == binary && lastChar == 0 && !error && file == [] && failures == 0
    {
      this.binary, lastChar, error, file, failures := binary, 0, false, [], 0;
    }

    /** GEMDOS Fwrite: it writes everything and returns how much, in a long; or it
        writes nothing and returns an error. */
    method OsWrite(data: seq<byte>) returns (count: long)
      modifies this`file, this`failures
      ensures failures == old(failures) || failures == old(failures) + 1
      ensures failures != old(failures) ==> count < 0 && file == old(file)
      ensures failures == old(failures) ==> count == Wrap32(|data|) && file == old(file) + data
    {
      if * {
        count := -1;
        failures := failures + 1;
      } else {
        file := file + data;
        count := Wrap32(|data|);
      }
    }

    /** Fills the buffer from the front of `str`. It may end with the CR of an
        LF that no longer fits. */
    method FillBuffer(str: seq<byte>, buffer: array<byte>) returns (put: int, got: int, addcr: int)
      requires str != [] && buffer.Length == BUFSIZE
      modifies buffer
      ensures 0 <= got <= |str| && 0 < put <= 8192 && put == got + addcr
      ensures buffer[..put] + WithCr(buffer[put - 1], str[got..]) == WithCr(lastChar, str)
      ensures got == 0 ==> lastChar != CR && str[0] == LF && buffer[put - 1] == CR
      ensures got == |str| ==> buffer[put - 1] == str[got - 1]
    {
      hide WithCr;
      var limit := if BUFSIZE > |str| then |str| else BUFSIZE;
      put, got, addcr := 0, 0, 0;
      while put < limit && got < |str|
        invariant 0 <= got <= |str| && 0 <= put <= limit && put == got + addcr
        invariant put > 0 <==> got > 0
        invariant buffer[..put] + WithCr(if put > 0 then buffer[put - 1] else lastChar, str[got..]) ==
                  WithCr(lastChar, str)
        invariant got > 0 ==> buffer[put - 1] == str[got - 1]
      {
        ghost var before := buffer[..put];
        ghost var prev := if put > 0 then buffer[put - 1] else lastChar;
        ghost var rest := str[got..];
        WithCrStep(prev, rest);
        assert rest[1..] == str[got + 1..];
        if str[got] == LF {
          if got == 0 || str[got - 1] != CR {
            if got > 0 || lastChar != CR {
              buffer[put] := CR;
              put := put + 1;
              addcr := addcr + 1;
              assert buffer[..put] == before + [CR];
              PutChar(before, CR, WithCr(prev, rest), WithCr(lastChar, str), WithCr(CR, rest));
              before, prev := before + [CR], CR;
              WithCrStep(prev, rest);
              if put >= limit {
                return;
              }
            }
          }
        }
        buffer[put] := str[got];
        assert buffer[..put + 1] == before + [str[got]];
        PutChar(before, str[got], WithCr(prev, rest), WithCr(lastChar, str), WithCr(str[got], str[got + 1..]));
        put := put + 1;
        got := got + 1;
      }
    }

    /** Writes `data` in text mode. The result is its length in a long, or a
        negative error. */
    method WriteText(data: seq<byte>) returns (rc: long)
      modifies this`file, this`lastChar, this`failures
      ensures failures == old(failures) || failures == old(failures) + 1
      ensures failures == old(failures) ==>
        && rc == Wrap32(|data|) && file == old(file) + WithCr(old(lastChar), data)
        && lastChar == LastOf(old(lastChar), data)
      ensures failures != old(failures) ==>
        rc < 0 && data != [] && old(file) <= file <= old(file) + WithCr(old(lastChar), data)
    {
      hide WithCr, Wrap32;
      rc := 0;
      WrapInRange(0);
      ghost var all := file + WithCr(lastChar, data);
      var str := data;
      WithCrEmpty();
      while |str| > 0
        invariant file + WithCr(lastChar, str) == all && old(file) <= file && failures == old(failures)
        invariant |str| <= |data| && rc == Wrap32(|data| - |str|)
        invariant |str| < |data| ==> str == data[|data| - |str|..]
        invariant |str| == |data| ==> str == data
        invariant |str| == 0 && |data| > 0 ==> lastChar == data[|data| - 1]
        invariant data == [] ==> lastChar == old(lastChar)
        decreases |str|, if lastChar == CR then 0 else 1
      {
        var buffer := new byte[BUFSIZE];
        var put, got, addcr := FillBuffer(str, buffer);
        ghost var before := file;
        if put > 0 {
          lastChar := buffer[put - 1];
          var count := OsWrite(buffer[..put]);
          WrapInRange(put);
          if count < 0 {
            rc := count;
            break;
          } else {
            WrapAdd(|data| - |str|, count - addcr);
            rc := Wrap32(rc + (count - addcr));
          }
        }
        assert file + WithCr(lastChar, str[got..]) == before + (buffer[..put] + WithCr(lastChar, str[got..]));
        str := str[got..];
      }
    }

    /** Writes `nmemb` items of `size` bytes: as many bytes as the product has in 32
        bits, or up to the first write of the operating system that fails. */
    method Fwrite(data: seq<byte>, size: nat, nmemb: nat) returns (rc: nat)
      requires 0 < size && |data| == size * nmemb
      modifies this`file, this`lastChar, this`error, this`failures
      ensures failures == old(failures) || failures == old(failures) + 1
      ensures rc == if failures == old(failures) then Reported(size, nmemb) else 0
      ensures error == (old(error) || failures != old(failures) || |Cut(data)| > LONG_MAX)
      ensures nmemb > 0 ==> (rc == nmemb <==> failures == old(failures) && size * nmemb <= LONG_MAX)
      ensures failures != old(failures) ==>
        && (binary || Cut(data) != [])
        && old(file) <= file <= old(file) + if binary then Cut(data) else WithCr(old(lastChar), Cut(data))
      ensures failures == old(failures) && binary ==> file == old(file) + Cut(data) && lastChar == old(lastChar)
      ensures failures == old(failures) && !binary ==>
        file == old(file) + WithCr(old(lastChar), Cut(data)) && lastChar == LastOf(old(lastChar), Cut(data))
    {
      var count: long;
      var n := size * nmemb % TWO_32;
      if binary {
        count := OsWrite(data[..n]);
      } else {
        count := WriteText(data[..n]);
      }
      WrappedSign(n);
      if count < 0 {
        error := true;
        rc := 0;
      } else {
        rc := count / size;
      }
      AllReported(size, nmemb);
    }
  }

  /** What is written of an object: its length is taken in 32 bits. */
  function Cut(data: seq<byte>): seq<byte> {
    data[..|data| % TWO_32]
  }

  /** How many items fwrite reports when no write fails. */
  function Reported(size: nat, nmemb: nat): nat
    requires 0 < size
  {
    var n := size * nmemb % TWO_32;
    if n > LONG_MAX then 0 else n / size
  }

  lemma WrappedSign(n: nat)
    requires n < TWO_32
    ensures if n <= LONG_MAX then Wrap32(n) == n else Wrap32(n) < 0
  {
  }

  /** All items are reported exactly if their bytes fit a long. */
  lemma AllReported(size: nat, nmemb: nat)
    requires 0 < size
    ensures Reported(size, nmemb) == nmemb <==> size * nmemb <= LONG_MAX
  {
    var n := size * nmemb % TWO_32;
    if size * nmemb <= LONG_MAX {
      ProductQuotient(nmemb, size);
    } else if n <= LONG_MAX {
      Divided(n, size);
      assert n / size * size <= n < nmemb * size;
    }
  }

  /** 2^31 bytes are written, and none is reported; nor is any of 2^32. */
  lemma BigWriteFails()
    ensures Reported(1, 0x8000_0000) == 0 && Reported(0x1_0000, 0x1_0000) == 0
  {
  }

  lemma WithCrEmpty()
    ensures forall prev :: WithCr(prev, []) == []
  {
  }

  function Concat(parts: seq<seq<byte>>): seq<byte> {
    if parts == [] then [] else parts[0] + Concat(parts[1..])
  }

  lemma {:induction false} ConcatMore(parts: seq<seq<byte>>, k: nat)
    requires k < |parts|
    ensures Concat(parts[..k + 1]) == Concat(parts[..k]) + parts[k]
  {
    if k == 0 {
      assert parts[..1] == [parts[0]] && parts[..0] == [] && parts[..1][1..] == [];
    } else {
      ConcatMore(parts[1..], k - 1);
      assert parts[..k + 1][1..] == parts[1..][..k] && parts[..k][1..] == parts[1..][..k - 1];
    }
  }

  /** No part is too long for the length, or for the result, of one call. */
  predicate AllAtMost(parts: seq<seq<byte>>, n: int) {
    forall p <- parts :: |p| <= n
  }

  lemma AllAtMostStep(parts: seq<seq<byte>>, k: nat, n: int)
    requires k < |parts|
    ensures AllAtMost(parts[..k + 1], n) <==> AllAtMost(parts[..k], n) && |parts[k]| <= n
  {
    assert parts[..k + 1] == parts[..k] + [parts[k]];
  }

  /** Any sequence of calls in text mode. They report everything exactly if no
      write fails and no part is longer than a long can say; then, and also with
      parts that are cut off nowhere, the file gets what one conversion of
      everything would give. */
  method WriteAll(f: Stream, parts: seq<seq<byte>>) returns (ok: bool)
    requires !f.binary
    modifies f
    ensures ok <==> f.failures == old(f.failures) && AllAtMost(parts, LONG_MAX)
    ensures f.failures == old(f.failures) && AllAtMost(parts, ULONG_MAX) ==>
      f.file == old(f.file) + WithCr(old(f.lastChar), Concat(parts))
  {
    hide WithCr, Concat, AllAtMost;
    ghost var file0, last0 := f.file, f.lastChar;
    ConcatNothing();
    WithCrEmpty();
    assert parts[..0] == [];
    ok := true;
    AllAtMostNone();
    for k := 0 to |parts|
      invariant !f.binary && f.failures >= old(f.failures)
      invariant ok <==> f.failures == old(f.failures) && AllAtMost(parts[..k], LONG_MAX)
      invariant f.failures == old(f.failures) && AllAtMost(parts[..k], ULONG_MAX) ==>
        f.file == file0 + WithCr(last0, Concat(parts[..k])) && f.lastChar == LastOf(last0, Concat(parts[..k]))
    {
      ghost var before, f0 := Concat(parts[..k]), f.failures;
      var rc := f.Fwrite(parts[k], 1, |parts[k]|);
      assert |parts[k]| == 0 ==> Cut(parts[k]) == [];
      assert rc == |parts[k]| <==> f.failures == f0 && |parts[k]| <= LONG_MAX;
      ok := ok && rc == |parts[k]|;
      WithCrConcat(last0, before, parts[k]);
      ConcatMore(parts, k);
      assert |parts[k]| <= ULONG_MAX ==> Cut(parts[k]) == parts[k];
      AllAtMostStep(parts, k, LONG_MAX);
      AllAtMostStep(parts, k, ULONG_MAX);
      assert LastOf(LastOf(last0, before), parts[k]) == LastOf(last0, before + parts[k]);
    }
    assert parts[..|parts|] == parts;
  }

  lemma AllAtMostNone()
    ensures forall n :: AllAtMost([], n)
  {
  }

  lemma ConcatNothing()
    ensures Concat([]) == []
  {
  }
}
