/** parseargs on an ordinary command tail: the words of the tail, copied above
    the bss and reached through argv. */
module CommandLine {

  import opened CType

  // ---- the words of a tail ----

  function DropSpaces(t: string): (r: string)
    ensures |r| <= |t| && (r != "" ==> !IsSpace(r[0]))
    ensures forall c :: c in r ==> c in t
  {
    if t != "" && IsSpace(t[0]) then DropSpaces(t[1..]) else t
  }

  function WordLength(t: string): (n: nat)
    ensures n <= |t|
    ensures forall i :: 0 <= i < n ==> !IsSpace(t[i])
    ensures n < |t| ==> IsSpace(t[n])
  {
    if t != "" && !IsSpace(t[0]) then 1 + WordLength(t[1..]) else 0
  }

  /** The maximal runs of characters that are no space. */
  function Words(t: string): (ws: seq<string>)
    decreases |t|
  {
    var u := DropSpaces(t);
    if u == "" then []
    else
      var n := WordLength(u);
      [u[..n]] + Words(u[n..])
  }

  /** Strings one behind the other, each with its terminator. */
  function Pack(ws: seq<string>): string {
    if ws == [] then "" else ws[0] + "\0" + Pack(ws[1..])
  }

  /** What the copy loop makes of a tail: every run of spaces becomes one
      terminator. */
  function Copied(t: string): (s: string)
    ensures |s| <= |t|
    decreases |t|
  {
    if t == "" then ""
    else if IsSpace(t[0]) then "\0" + Copied(DropSpaces(t[1..]))
    else [t[0]] + Copied(t[1..])
  }

  lemma {:induction false} CopiedWord(t: string, n: nat)
    requires n <= |t| && forall i :: 0 <= i < n ==> !IsSpace(t[i])
    ensures Copied(t) == t[..n] + Copied(t[n..])
  {
    hide IsSpace, DropSpaces;
    if n > 0 {
      CopiedWord(t[1..], n - 1);
      assert t[1..][..n - 1] == t[1..n];
      assert t[1..][n - 1..] == t[n..];
      assert t[..n] == [t[0]] + t[1..n];
    } else {
      assert t[0..] == t;
    }
  }

  lemma Prefixed(x: string, a: string, b: string)
    requires a <= b
    ensures x + a <= x + b
  {
  }

  /** The first word of a tail, and the rest without the spaces behind it. */
  lemma FirstWord(t: string, n: nat, v: string)
    requires t != "" && !IsSpace(t[0])
    requires n == WordLength(t) && v == DropSpaces(t[n..])
    ensures Words(t) == [t[..n]] + Words(v)
    ensures n < |t| ==> Copied(t) == t[..n] + "\0" + Copied(v)
    ensures n == |t| ==> Copied(t) == t && v == ""
    ensures |v| < |t|
  {
    WordsSkip(t[n..], v);
    FirstCopied(t, n, v);
  }

  lemma FirstCopied(t: string, n: nat, v: string)
    requires t != "" && n == WordLength(t) && v == DropSpaces(t[n..])
    ensures n < |t| ==> Copied(t) == t[..n] + "\0" + Copied(v)
    ensures n == |t| ==> Copied(t) == t && v == ""
  {
    hide WordLength;
    var u := t[n..];
    CopiedWord(t, n);
    if n < |t| {
      assert u[0] == t[n];
      assert Copied(u) == "\0" + Copied(v);
    } else {
      assert t[..|t|] == t;
      assert u == "";
    }
  }

  /** Two terminators behind the copy, and it begins with the packed words and
      an empty string. */
  lemma {:induction false} CopiedIsPacked(t: string)
    requires t != "" ==> !IsSpace(t[0])
    ensures Pack(Words(t)) + "\0" <= Copied(t) + "\0\0"
    decreases |t|
  {
    if t != "" {
      var n := WordLength(t);
      var v := DropSpaces(t[n..]);
      FirstWord(t, n, v);
      PackFirst(t[..n], Words(v));
      var x := t[..n] + "\0";
      assert Pack(Words(t)) + "\0" == x + (Pack(Words(v)) + "\0");
      if n < |t| {
        CopiedIsPacked(v);
        Prefixed(x, Pack(Words(v)) + "\0", Copied(v) + "\0\0");
        assert Copied(t) + "\0\0" == x + (Copied(v) + "\0\0");
      } else {
        assert t[..n] == t;
      }
    }
  }

  lemma PackFirst(w: string, ws: seq<string>)
    ensures Pack([w] + ws) == w + "\0" + Pack(ws)
  {
  }

  lemma WordsSkip(u: string, v: string)
    requires v == DropSpaces(u)
    ensures Words(u) == Words(v)
  {
  }

  // ---- parseargs ----

  /** Passes a run of spaces. */
  method SkipRun(tail: string, from: nat) returns (i: nat)
    requires from <= |tail|
    ensures from <= i <= |tail| && tail[i..] == DropSpaces(tail[from..])
  {
    i := from;
    while i < |tail| && IsSpace(tail[i])
      invariant from <= i <= |tail| && DropSpaces(tail[i..]) == DropSpaces(tail[from..])
    {
      assert tail[i..][1..] == tail[i + 1..];
      i := i + 1;
    }
  }

  lemma CopiedStep(t: string)
    requires t != ""
    ensures Copied(t) == if IsSpace(t[0]) then "\0" + Copied(DropSpaces(t[1..])) else [t[0]] + Copied(t[1..])
  {
  }

  lemma CopiedNothing()
    ensures Copied("") == ""
  {
  }

  lemma Regroup(a: string, c: char, b: string)
    ensures (a + [c]) + b == a + ([c] + b)
  {
  }

  /** The copy loop, behind leading spaces. */
  method CopyWords(tail: string, from: nat, text: array<char>) returns (to: nat)
    requires from <= |tail| <= text.Length
    modifies text
    ensures to <= |tail| && text[..to] == Copied(tail[from..])
  {
    hide DropSpaces, Copied, IsSpace;
    var i := from;
    to := 0;
    while i < |tail|
      invariant from <= i <= |tail| && to <= i
      invariant text[..to] + Copied(tail[i..]) == Copied(tail[from..])
    {
      ghost var done, rest := text[..to], tail[i..];
      assert rest[1..] == tail[i + 1..];
      CopiedStep(rest);
      if IsSpace(tail[i]) {
        text[to] := '\0';
        i := SkipRun(tail, i + 1);
      } else {
        text[to] := tail[i];
        i := i + 1;
      }
      to := to + 1;
      assert text[..to] == done + [text[to - 1]];
      Regroup(done, text[to - 1], Copied(tail[i..]));
    }
    assert tail[i..] == "";
    CopiedNothing();
  }

  /** The copy of the tail begins with its words, one behind the other. */
  method CopyTail(tail: string, text: array<char>)
    requires |tail| + 2 <= text.Length
    modifies text
    ensures Pack(Words(tail)) + "\0" <= text[..]
  {
    hide Words, Pack;
    assert tail[0..] == tail;
    var i := SkipRun(tail, 0);
    WordsSkip(tail, tail[i..]);
    CopiedIsPacked(tail[i..]);
    var to := CopyWords(tail, i, text);
    text[to] := '\0';
    text[to + 1] := '\0';
    assert text[..to + 2] == Copied(tail[i..]) + "\0\0";
    assert text[..to + 2] <= text[..];
  }

  /** An element of argv: the empty string literal, an address in the copied
      text, or the null pointer at the end. */
  datatype Arg = Nothing | At(offset: nat) | Null

  /** The string at an offset, up to its terminator. */
  ghost predicate Holds(text: seq<char>, offset: nat, word: string) {
    && '\0' !in word
    && offset + |word| < |text|
    && text[offset..offset + |word|] == word && text[offset + |word|] == '\0'
  }

  predicate IsWord(w: string) {
    w != "" && '\0' !in w && forall i :: 0 <= i < |w| ==> !IsSpace(w[i])
  }

  lemma {:induction false} WordsAreWords(t: string)
    requires '\0' !in t
    ensures forall i :: 0 <= i < |Words(t)| ==> IsWord(Words(t)[i])
    decreases |t|
  {
    var u := DropSpaces(t);
    if u == "" {
    } else {
      WordsAreWords(u[WordLength(u)..]);
    }
  }

  lemma {:induction false} DropsSpaces(space: string, t: string)
    requires AllSpaces(space) && (t != "" ==> !IsSpace(t[0]))
    ensures DropSpaces(space + t) == t
  {
    if space == "" {
      assert space + t == t;
    } else {
      SpacesAre(space[0]);
      assert (space + t)[1..] == space[1..] + t;
      DropsSpaces(space[1..], t);
    }
  }

  lemma {:induction false} WordIs(w: string, rest: string)
    requires (forall m :: 0 <= m < |w| ==> !IsSpace(w[m])) && (rest != "" ==> IsSpace(rest[0]))
    ensures WordLength(w + rest) == |w|
  {
    if w == "" {
      assert w + rest == rest;
    } else {
      assert (w + rest)[1..] == w[1..] + rest;
      WordIs(w[1..], rest);
    }
  }

  /** Every tail is read from its front: nothing but spaces holds no word, and a
      word that ends or is followed by a space comes first. */
  lemma FirstOfWords(space: string, w: string, rest: string)
    requires AllSpaces(space) && IsWord(w) && (rest != "" ==> rest[0] as int in {32, 9, 10, 11, 12, 13})
    ensures Words(space) == [] && Words(space + w + rest) == [w] + Words(rest)
  {
    hide IsSpace;
    DropsSpaces(space, "");
    assert space + "" == space;
    DropsSpaces(space, w + rest);
    assert space + w + rest == space + (w + rest);
    if rest != "" { SpacesAre(rest[0]); }
    WordIs(w, rest);
    assert (w + rest)[..|w|] == w && (w + rest)[|w|..] == rest;
  }

  /** The inner loop: behind the terminator of the word that starts here. */
  method PastWord(text: array<char>, from: nat, ghost w: string) returns (next: nat)
    requires Holds(text[..], from, w)
    ensures next == from + |w| + 1
  {
    hide Holds;
    next := from;
    HoldsAt(text[..], from, w);
    while text[next] != '\0'
      invariant from <= next <= from + |w|
      decreases from + |w| - next
    {
      next := next + 1;
    }
    next := next + 1;
  }

  lemma HoldsAt(text: seq<char>, from: nat, w: string)
    requires Holds(text, from, w)
    ensures from + |w| < |text|
    ensures forall i :: from <= i <= from + |w| ==> (text[i] == '\0' <==> i == from + |w|)
  {
  }

  /** The packed strings that start at `from`. */
  ghost predicate Packed(text: seq<char>, from: nat, ws: seq<string>) {
    from <= |text| && Pack(ws) + "\0" <= text[from..]
  }

  /** The argument vector: one address for each word, then a null pointer. */
  method FillArgv(text: array<char>, ghost ws: seq<string>, argv: array<Arg>) returns (argc: nat)
    requires Packed(text[..], 0, ws) && forall i :: 0 <= i < |ws| ==> IsWord(ws[i])
    requires |ws| + 2 <= argv.Length
    modifies argv
    ensures argc == |ws| + 1 && argv[0] == Nothing && argv[argc] == Null
    ensures forall k :: 1 <= k <= |ws| ==> argv[k].At? && Holds(text[..], argv[k].offset, ws[k - 1])
    ensures argv[argc + 1..] == old(argv[argc + 1..])
  {
    hide Holds, Packed, Pack, IsWord;
    argv[0] := Nothing;
    argc := 1;
    var from: nat := 0;
    ghost var s := text[..];
    ghost var tail := argv[|ws| + 2..];
    assert ws[0..] == ws;
    PackedNext(s, from, ws, 0);
    while text[from] != '\0'
      invariant 1 <= argc <= |ws| + 1 && from < text.Length
      invariant Packed(s, from, ws[argc - 1..]) && (text[from] == '\0' <==> argc == |ws| + 1)
      invariant argv[0] == Nothing && argv[|ws| + 2..] == tail
      invariant forall k :: 1 <= k < argc ==> argv[k].At? && Holds(s, argv[k].offset, ws[k - 1])
      decreases |ws| - argc
    {
      PackedNext(s, from, ws, argc - 1);
      argv[argc] := At(from);
      from := PastWord(text, from, ws[argc - 1]);
      PackedNext(s, from, ws, argc);
      argc := argc + 1;
    }
    argv[argc] := Null;
  }

  /** What stands at the start of the packed words from the k-th on. */
  lemma PackedNext(text: seq<char>, from: nat, ws: seq<string>, k: nat)
    requires k <= |ws| && Packed(text, from, ws[k..]) && forall i :: 0 <= i < |ws| ==> IsWord(ws[i])
    ensures from < |text| && (text[from] == '\0' <==> k == |ws|)
    ensures k < |ws| ==> Holds(text, from, ws[k]) && Packed(text, from + |ws[k]| + 1, ws[k + 1..])
  {
  }

  /** Where the arrays lie, and how many bytes are taken above the bss. */
  datatype Layout = Layout(environAt: int, textAt: int, argvAt: int, count: int)

  /** The multiple of four at or below a number. */
  function Down4(n: int): int {
    n / 4 * 4
  }

  /** parseargs with `env` strings in the environment, on a tail that does not
      start with a quote. The three arrays follow each other without a gap, from
      the first multiple of four above the bss to the end of what is counted, less
      the bytes that aligning did not take. */
  method ParseArgs(bss: nat, env: nat, tail: string, argv: array<Arg>) returns (argc: nat, text: array<char>, l: Layout)
    requires '\0' !in tail && |tail| <= 127
    requires DropSpaces(tail) == "" || DropSpaces(tail)[0] != '\''
    requires |Words(tail)| + 2 <= argv.Length
    modifies argv
    ensures var ws := Words(tail);
      && argc == |ws| + 1 && argv[0] == Nothing && argv[argc] == Null
      && (forall k :: 1 <= k <= |ws| ==> argv[k].At? && Holds(text[..], argv[k].offset, ws[k - 1]))
      && argv[argc + 1..] == old(argv[argc + 1..])
    ensures bss < l.environAt <= bss + 4 && l.environAt % 4 == 0
    ensures l.textAt == l.environAt + 4 * (env + 1)
    ensures text.Length == |tail| - |tail| % 4 + 8 && l.argvAt == l.textAt + text.Length
    ensures l.argvAt + 4 * (argc + 1) == bss + l.count - (bss + 4 - l.environAt)
  {
    hide Words, Holds, Pack;
    var count := 4;
    var environAt := Down4(bss + 4);
    var envp := environAt;
    var left: int := env;
    while left > 0
      invariant 0 <= left && envp == environAt + 4 * (env - left) && count == 4 + 4 * (env - left)
    {
      envp := envp + 4;
      count := count + 4;
      left := left - 1;
    }
    envp := envp + 4;
    count := count + 4;
    var textAt := envp;
    if |tail| > 0 {
      count := count + Down4(|tail|);
      envp := envp + Down4(|tail|);
    }
    envp := envp + 8;
    count := count + 8;
    text := new char[envp - textAt];
    count := count + 4;
    CopyTail(tail, text);
    WordsAreWords(tail);
    assert text[0..] == text[..];
    argc := FillArgv(text, Words(tail), argv);
    count := count + 4 * (argc - 1);
    l := Layout(environAt, textAt, envp, count + 4);
  }
}
