/** setenv, unsetenv and getenv over an array of pointers that ends with a null
    pointer. */
module Environment {

  import opened CInt

  /** A pointer to a string. */
  datatype Ptr = Null | Str(text: string)

  datatype Option<T> = None | Some(value: T)

  // ---- what a list of entries means ----

  /** The entry binds this name: the name is a prefix of it, and an equals sign
      comes next. */
  predicate Binds(entry: string, name: string) {
    |entry| > |name| && entry[..|name|] == name && entry[|name|] == '='
  }

  predicate IsName(name: string) {
    name != "" && '=' !in name
  }

  function Entry(name: string, value: string): string {
    name + "=" + value
  }

  /** The first entry that binds the name, or the end. */
  function First(es: seq<string>, name: string): (i: nat)
    ensures i <= |es|
    ensures i < |es| ==> Binds(es[i], name)
    ensures forall k :: 0 <= k < i ==> !Binds(es[k], name)
  {
    if es == [] || Binds(es[0], name) then 0 else 1 + First(es[1..], name)
  }

  function Lookup(es: seq<string>, name: string): Option<string> {
    var i := First(es, name);
    if i == |es| then None else Some(es[i][|name| + 1..])
  }

  /** The entries that do not bind the name, in order. */
  function Without(es: seq<string>, name: string): seq<string> {
    if es == [] then []
    else if Binds(es[0], name) then Without(es[1..], name)
    else [es[0]] + Without(es[1..], name)
  }

  /** What setenv leaves. */
  function Bound(es: seq<string>, name: string, entry: string, replace: bool): seq<string> {
    var i := First(es, name);
    if i == |es| then es + [entry] else if replace then es[i := entry] else es
  }

  // ---- laws of the list ----

  /** Names that are prefixes of each other do not collide. */
  lemma OneName(entry: string, name: string, other: string)
    requires Binds(entry, name) && Binds(entry, other) && '=' !in name && '=' !in other
    ensures name == other
  {
  }

  lemma EntryBinds(name: string, value: string)
    ensures Binds(Entry(name, value), name) && Entry(name, value)[|name| + 1..] == value
  {
  }

  lemma EntryEnds(name: string, value: string)
    requires '\0' !in name && '\0' !in value
    ensures '\0' !in Entry(name, value)
  {
  }

  lemma {:induction false} WithoutBindsNone(es: seq<string>, name: string)
    ensures Lookup(Without(es, name), name) == None
  {
    if es == [] {
    } else {
      WithoutBindsNone(es[1..], name);
    }
  }

  /** Removing a name does not change what another name is bound to. */
  lemma {:induction false} WithoutKeepsOthers(es: seq<string>, name: string, other: string)
    requires '=' !in name && '=' !in other && name != other
    ensures Lookup(Without(es, name), other) == Lookup(es, other)
  {
    if es == [] {
    } else {
      WithoutKeepsOthers(es[1..], name, other);
      if Binds(es[0], other) && Binds(es[0], name) { OneName(es[0], name, other); }
      var rest := Without(es[1..], name);
      assert ([es[0]] + rest)[1..] == rest;
    }
  }

  lemma {:induction false} WithoutAppend(es: seq<string>, fs: seq<string>, name: string)
    ensures Without(es + fs, name) == Without(es, name) + Without(fs, name)
  {
    hide Binds;
    if es == [] {
      assert es + fs == fs;
    } else {
      WithoutAppend(es[1..], fs, name);
      assert (es + fs)[1..] == es[1..] + fs;
    }
  }

  lemma {:induction false} WithoutAll(es: seq<string>, name: string)
    requires forall i :: 0 <= i < |es| ==> !Binds(es[i], name)
    ensures Without(es, name) == es
  {
    if es == [] {
    } else {
      WithoutAll(es[1..], name);
    }
  }

  /** An entry in the middle that binds the name. */
  lemma WithoutMiddle(es: seq<string>, i: nat, name: string)
    requires i < |es| && Binds(es[i], name)
    ensures Without(es, name) == Without(es[..i] + es[i + 1..], name)
  {
    assert es == es[..i] + ([es[i]] + es[i + 1..]);
    WithoutAppend(es[..i], [es[i]] + es[i + 1..], name);
    assert ([es[i]] + es[i + 1..])[1..] == es[i + 1..];
    WithoutAppend(es[..i], es[i + 1..], name);
  }

  /** setenv leaves the entries of all other names, and their order, alone. */
  lemma BoundKeepsOthers(es: seq<string>, name: string, entry: string, replace: bool)
    requires Binds(entry, name)
    ensures Without(Bound(es, name, entry, replace), name) == Without(es, name)
  {
    var i := First(es, name);
    if i == |es| {
      WithoutAppend(es, [entry], name);
    } else if replace {
      WithoutMiddle(es, i, name);
      var fs := es[i := entry];
      WithoutMiddle(fs, i, name);
      assert fs[..i] == es[..i] && fs[i + 1..] == es[i + 1..];
    }
  }

  lemma {:induction false} FirstIs(es: seq<string>, name: string, i: nat)
    requires i < |es| && Binds(es[i], name)
    requires forall k :: 0 <= k < i ==> !Binds(es[k], name)
    ensures First(es, name) == i
  {
  }

  /** setenv binds the name, unless it is bound and shall not be replaced. */
  lemma BoundBinds(es: seq<string>, name: string, value: string, replace: bool)
    ensures Lookup(Bound(es, name, Entry(name, value), replace), name) ==
            if Lookup(es, name).Some? && !replace then Lookup(es, name) else Some(value)
  {
    var i := First(es, name);
    EntryBinds(name, value);
    if i == |es| || replace {
      FirstIs(Bound(es, name, Entry(name, value), replace), name, i);
    }
  }

  /** What any other name is bound to follows from what is kept. */
  lemma OthersFollow(es: seq<string>, fs: seq<string>, name: string, other: string)
    requires '=' !in name && '=' !in other && name != other
    requires Without(es, name) == Without(fs, name)
    ensures Lookup(es, other) == Lookup(fs, other)
  {
    WithoutKeepsOthers(es, name, other);
    WithoutKeepsOthers(fs, name, other);
  }

  // ---- runs ----

  datatype Call = Set(name: string, value: string, replace: bool) | Unset(name: string)

  function After(es: seq<string>, call: Call): seq<string> {
    match call
    case Set(name, value, replace) =>
      if IsName(name) then Bound(es, name, Entry(name, value), replace) else es
    case Unset(name) =>
      if IsName(name) then Without(es, name) else es
  }

  predicate NoTerminator(call: Call) {
    '\0' !in call.name && (call.Set? ==> '\0' !in call.value)
  }

  function AfterAll(es: seq<string>, calls: seq<Call>): seq<string> {
    if calls == [] then es else After(AfterAll(es, calls[..|calls| - 1]), calls[|calls| - 1])
  }

  /** The same calls on a finite map. */
  function MapAfter(m: map<string, string>, call: Call): map<string, string> {
    match call
    case Set(name, value, replace) =>
      if IsName(name) && (replace || name !in m) then m[name := value] else m
    case Unset(name) =>
      if IsName(name) then m - {name} else m
  }

  function MapAfterAll(m: map<string, string>, calls: seq<Call>): map<string, string> {
    if calls == [] then m else MapAfter(MapAfterAll(m, calls[..|calls| - 1]), calls[|calls| - 1])
  }

  predicate SameFor(es: seq<string>, m: map<string, string>, name: string) {
    Lookup(es, name) == if name in m then Some(m[name]) else None
  }

  /** The list answers every proper name as the map does. */
  ghost predicate Refines(es: seq<string>, m: map<string, string>) {
    forall name {:trigger SameFor(es, m, name)} :: IsName(name) ==> SameFor(es, m, name)
  }

  lemma CallRefines(es: seq<string>, m: map<string, string>, call: Call)
    requires Refines(es, m)
    ensures Refines(After(es, call), MapAfter(m, call))
  {
    hide Lookup, Without, Bound, Binds;
    var fs, n := After(es, call), MapAfter(m, call);
    forall name | IsName(name) ensures SameFor(fs, n, name) {
      assert SameFor(es, m, name);
      if IsName(call.name) {
        match call {
          case Set(target, value, replace) =>
            EntryBinds(target, value);
            BoundBinds(es, target, value, replace);
            BoundKeepsOthers(es, target, Entry(target, value), replace);
          case Unset(target) =>
            WithoutBindsNone(es, target);
            WithoutTwice(es, target);
        }
        if name != call.name { OthersFollow(es, fs, call.name, name); }
      }
    }
  }

  lemma {:induction false} WithoutTwice(es: seq<string>, name: string)
    ensures Without(Without(es, name), name) == Without(es, name)
  {
    if es == [] {
    } else {
      WithoutTwice(es[1..], name);
      assert ([es[0]] + Without(es[1..], name))[1..] == Without(es[1..], name);
    }
  }

  /** Any sequence of calls. */
  lemma {:induction false} RunRefines(es: seq<string>, m: map<string, string>, calls: seq<Call>)
    requires Refines(es, m)
    ensures Refines(AfterAll(es, calls), MapAfterAll(m, calls))
  {
    if calls == [] {
    } else {
      RunRefines(es, m, calls[..|calls| - 1]);
      CallRefines(AfterAll(es, calls[..|calls| - 1]), MapAfterAll(m, calls[..|calls| - 1]), calls[|calls| - 1]);
    }
  }

  // ---- the code ----

  /** The strings behind the pointers. */
  function Texts(s: seq<Ptr>): (es: seq<string>)
    requires forall i :: 0 <= i < |s| ==> s[i].Str?
    ensures |es| == |s| && forall i :: 0 <= i < |s| ==> es[i] == s[i].text
  {
    seq(|s|, i requires 0 <= i < |s| => s[i].text)
  }

  lemma GapInTexts(was: seq<Ptr>, ep: nat)
    requires ep < |was| && forall i :: 0 <= i < |was| ==> was[i].Str?
    ensures Texts(was[..ep] + was[ep + 1..]) == Texts(was)[..ep] + Texts(was)[ep + 1..]
  {
  }

  lemma TextsAppend(s: seq<Ptr>, p: Ptr)
    requires p.Str? && forall i :: 0 <= i < |s| ==> s[i].Str?
    ensures Texts(s + [p]) == Texts(s) + [p.text]
  {
  }

  /** strncmp of the name finds nothing, and an equals sign follows: the string
      ends with a NUL, which is not one. */
  method IsBinding(entry: string, name: string) returns (b: bool)
    requires '\0' !in entry && '\0' !in name
    ensures b == Binds(entry, name)
  {
    var i := 0;
    while i < |name| && i < |entry| && entry[i] == name[i]
      invariant 0 <= i <= |name| && i <= |entry|
      invariant entry[..i] == name[..i]
    {
      i := i + 1;
    }
    b := i == |name| && i < |entry| && entry[i] == '=';
    if i < |name| && i < |entry| { assert entry[..|entry|][i] != name[i]; }
  }

  /** What the allocator is going to answer: whether realloc succeeds, whether it
      moves a block that need not move, how much more than asked a new block
      holds, and whether malloc succeeds. */
  datatype Answers = Answers(grown: bool, moves: bool, room: nat, stored: bool)

  class Environ {
    var environ: array?<Ptr>
    /** The array that this module allocated, if any. */
    var lastEnviron: array?<Ptr>
    var errno: int
    /** The number of entries. */
    ghost var count: nat
    /** The arrays that realloc has freed. */
    ghost var freed: set<array?<Ptr>>

    ghost predicate Valid()
      reads this, environ
    {
      if environ == null then count == 0
      else
        && count < environ.Length && environ[count] == Null
        && forall i :: 0 <= i < count ==> environ[i].Str? && '\0' !in environ[i].text
    }

    /** No pointer of the module points to freed memory. */
    ghost predicate Usable()
      reads this, environ
    {
      Valid() && null !in freed && environ !in freed && lastEnviron !in freed
    }

    /** The environment that a program starts with. */
    constructor (initial: array?<Ptr>, ghost n: nat)
      requires if initial == null then n == 0 else n < initial.Length && initial[n] == Null
      requires initial != null ==> forall i :: 0 <= i < n ==> initial[i].Str? && '\0' !in initial[i].text
      ensures Usable() && environ == initial && lastEnviron == null && count == n && freed == {} && errno == 0
    {
      environ, lastEnviron, errno := initial, null, 0;
      count, freed := n, {};
    }

    ghost function Entries(): (es: seq<string>)
      requires Valid()
      reads this, environ
      ensures |es| == count
    {
      if environ == null then [] else Texts(environ[..count])
    }

    /** The first binding of the name, or the terminator. */
    method Find(name: string) returns (ep: nat)
      requires Usable() && '\0' !in name && environ != null
      ensures ep == First(Entries(), name)
    {
      ep := 0;
      while environ[ep] != Null
        invariant ep <= count
        invariant forall k :: 0 <= k < ep ==> !Binds(Entries()[k], name)
        decreases count - ep
      {
        var b := IsBinding(environ[ep].text, name);
        if b {
          FirstIs(Entries(), name, ep);
          return;
        }
        ep := ep + 1;
      }
    }

    method Getenv(tag: string) returns (value: Option<string>)
      requires Usable() && '\0' !in tag
      ensures value == Lookup(Entries(), tag)
    {
      value := None;
      if environ != null {
        var v := Find(tag);
        if environ[v] != Null { value := Some(environ[v].text[|tag| + 1..]); }
      }
    }

    /** Moves the later pointers back by one, the null pointer with them. */
    static method ShiftBack(a: array<Ptr>, ep: nat, ghost n: nat)
      requires ep < n < a.Length && a[n] == Null && forall i :: 0 <= i < n ==> a[i].Str?
      modifies a
      ensures a[..n - 1] == old(a[..ep] + a[ep + 1..n]) && a[n - 1] == Null
    {
      ghost var was := a[..];
      var dp := ep;
      while true
        invariant ep <= dp < n
        invariant forall i :: 0 <= i < ep ==> a[i] == was[i]
        invariant forall i :: ep <= i < dp ==> a[i] == was[i + 1]
        invariant forall i :: dp <= i < a.Length ==> a[i] == was[i]
        decreases n - dp
      {
        a[dp] := a[dp + 1];
        dp := dp + 1;
        assert a[dp - 1] == was[dp];
        if a[dp - 1] == Null { break; }
      }
      assert dp == n;
      assert a[..n - 1] == was[..ep] + was[ep + 1..n];
    }

    method CloseGap(ep: nat)
      requires Valid() && environ != null && ep < count
      modifies environ, `count
      ensures Valid() && Entries() == old(Entries()[..ep] + Entries()[ep + 1..])
    {
      hide Texts;
      ghost var was := environ[..count];
      GapInTexts(was, ep);
      ShiftBack(environ, ep, count);
      assert environ[..count - 1] == was[..ep] + was[ep + 1..];
      assert forall i :: 0 <= i < count - 1 ==> environ[i] == environ[..count - 1][i] && environ[i] in was;
      count := count - 1;
    }

    method Unsetenv(name: Ptr) returns (r: int)
      requires Usable() && (name.Str? ==> '\0' !in name.text)
      modifies `errno, `count, environ
      ensures Usable() && environ == old(environ) && lastEnviron == old(lastEnviron)
      ensures r == (if name.Str? && IsName(name.text) then 0 else -1)
      ensures r == 0 ==> Entries() == Without(old(Entries()), name.text) && errno == old(errno)
      ensures r == -1 ==> Entries() == old(Entries()) && errno == EINVAL
    {
      if name == Null || name.text == "" || '=' in name.text {
        errno := EINVAL;
        return -1;
      }
      r := 0;
      if environ != null {
        var ep := 0;
        while environ[ep] != Null
          invariant Usable() && environ == old(environ) && lastEnviron == old(lastEnviron) && errno == old(errno)
          invariant ep <= count
          invariant Without(Entries(), name.text) == Without(old(Entries()), name.text)
          invariant forall k :: 0 <= k < ep ==> !Binds(Entries()[k], name.text)
          decreases count - ep
        {
          var b := IsBinding(environ[ep].text, name.text);
          if b {
            WithoutMiddle(Entries(), ep, name.text);
            CloseGap(ep);
          } else {
            ep := ep + 1;
          }
        }
        WithoutAll(Entries(), name.text);
      }
    }

    /** memcpy of `n` pointers. */
    static method CopyPointers(from: array<Ptr>, to: array<Ptr>, n: nat)
      requires n <= from.Length && n <= to.Length && from != to
      modifies to
      ensures to[..n] == from[..n] && to[n..] == old(to[n..])
    {
      var i := 0;
      while i < n
        invariant 0 <= i <= n && to[..i] == from[..i] && to[n..] == old(to[n..])
      {
        to[i] := from[i];
        i := i + 1;
        assert to[..i] == to[..i - 1] + [from[i - 1]];
      }
    }

    /** realloc of the array that this module owns, if any. What it held is kept as
        far as there is room; a block that moves is freed where it was. */
    method Enlarge(size: nat, answers: Answers) returns (a: array?<Ptr>)
      requires Usable()
      modifies `freed
      ensures a != null <==> answers.grown
      ensures a != null ==> size <= a.Length
      ensures a != null ==>
        if lastEnviron != null && !answers.moves && size <= lastEnviron.Length then a == lastEnviron else fresh(a)
      ensures a != null && lastEnviron != null ==>
        var kept := if lastEnviron.Length < size then lastEnviron.Length else size;
        a[..kept] == lastEnviron[..kept]
      ensures var leaves := answers.grown && lastEnviron != null && (answers.moves || lastEnviron.Length < size);
        freed == old(freed) + if leaves then {lastEnviron} else {}
    {
      if !answers.grown { return null; }
      if lastEnviron != null && !answers.moves && size <= lastEnviron.Length { return lastEnviron; }
      var moved := new Ptr[size + answers.room];
      if lastEnviron != null {
        CopyPointers(lastEnviron, moved, if lastEnviron.Length < size then lastEnviron.Length else size);
        freed := freed + {lastEnviron};
      }
      a := moved;
    }

    /** The pointers before the terminator. */
    ghost function Pointers(): (s: seq<Ptr>)
      requires Valid()
      reads this, environ
      ensures |s| == count
      ensures forall i :: 0 <= i < count ==> s[i].Str? && '\0' !in s[i].text
      ensures Entries() == Texts(s)
    {
      if environ == null then [] else environ[..count]
    }

    /** Puts the new entry and a terminator behind the old ones. */
    method Fill(a: array<Ptr>, size: nat, entry: Ptr)
      requires Valid() && size == count && size + 2 <= a.Length
      requires environ == lastEnviron && environ != null ==> a[..size] == environ[..size]
      requires environ != lastEnviron ==> a != environ
      modifies a
      ensures a[..size + 2] == old(Pointers()) + [entry, Null]
    {
      ghost var s := Pointers();
      a[size] := entry;
      if environ != lastEnviron && environ != null {
        CopyPointers(environ, a, size);
      }
      a[size + 1] := Null;
      assert a[..size] == s;
      assert a[..size + 2] == a[..size] + [entry, Null];
    }

    /** The enlarged array becomes the environment. */
    method Append(a: array<Ptr>, size: nat, entry: Ptr)
      requires Valid() && size == count && size + 2 <= a.Length && entry.Str? && '\0' !in entry.text
      requires environ == lastEnviron && environ != null ==> a[..size] == environ[..size]
      requires environ != lastEnviron ==> a != environ
      modifies `environ, `lastEnviron, `count, a
      ensures Valid() && Entries() == old(Entries()) + [entry.text]
      ensures environ == lastEnviron == a
    {
      hide Texts;
      ghost var s := Pointers() + [entry];
      TextsAppend(Pointers(), entry);
      Fill(a, size, entry);
      ghost var u := a[..size + 2];
      assert u == s + [Null];
      assert a[..size + 1] == u[..size + 1] == s;
      assert forall i :: 0 <= i <= size ==> a[i] == s[i];
      lastEnviron := a;
      environ := a;
      count := size + 1;
    }

    /** What is stored for a binding: the caller's string, or a new one. */
    function Stored(name: string, value: string, combined: Ptr): (p: Ptr)
      ensures p.Str?
    {
      if combined.Str? then combined else Str(Entry(name, value))
    }

    /** malloc fails when realloc has moved the array that the module owned. */
    ghost predicate Lost(name: string, combined: Ptr, answers: Answers)
      requires Valid()
      reads this, environ
    {
      && First(Entries(), name) == |Entries()| && answers.grown && combined == Null && !answers.stored
      && lastEnviron != null && (answers.moves || lastEnviron.Length < count + 2)
    }

    /** Another string for entry `ep`. */
    method Exchange(ep: nat, entry: Ptr)
      requires Valid() && environ != null && ep < count && entry.Str? && '\0' !in entry.text
      modifies environ
      ensures Valid() && Entries() == old(Entries())[ep := entry.text]
    {
      environ[ep] := entry;
    }

    /** The module stays usable exactly if no array is lost. malloc itself says
        ENOMEM when it fails, and so does realloc. */
    method AddToEnviron(name: string, value: string, combined: Ptr, replace: bool, answers: Answers) returns (r: int)
      requires Usable() && '\0' !in name && '\0' !in value && (combined.Str? ==> '\0' !in combined.text)
      modifies this, environ, lastEnviron
      ensures Valid() && (Usable() <==> !old(Lost(name, combined, answers)))
      ensures old(Lost(name, combined, answers)) ==> lastEnviron in freed
      ensures var stored, absent := combined.Str? || answers.stored, First(old(Entries()), name) == |old(Entries())|;
        r == if (if absent then answers.grown && stored else replace ==> stored) then 0 else -1
      ensures r == 0 ==> Entries() == Bound(old(Entries()), name, Stored(name, value, combined).text, replace)
      ensures r != 0 ==> Entries() == old(Entries()) && environ == old(environ) && lastEnviron == old(lastEnviron)
      ensures lastEnviron == old(lastEnviron) || (fresh(lastEnviron) && environ == lastEnviron && r == 0)
      ensures environ == old(environ) || environ == lastEnviron
      ensures errno == if r == 0 then old(errno) else ENOMEM
    {
      hide Texts, First, Binds, Entry;
      EntryEnds(name, value);
      var size := 0;
      if environ != null { size := Find(name); }
      if environ == null || environ[size] == Null {
        var newEnviron := Enlarge(size + 2, answers);
        if newEnviron == null {
          errno := ENOMEM;
          return -1;
        }
        if combined == Null && !answers.stored {
          newEnviron[size] := Null;
          errno := ENOMEM;
          return -1;
        }
        Append(newEnviron, size, Stored(name, value, combined));
      } else if replace {
        if combined == Null && !answers.stored {
          errno := ENOMEM;
          return -1;
        }
        Exchange(size, Stored(name, value, combined));
      }
      r := 0;
    }

    method Setenv(name: Ptr, value: string, replace: bool, answers: Answers) returns (r: int)
      requires Usable() && (name.Str? ==> '\0' !in name.text) && '\0' !in value
      modifies this, environ, lastEnviron
      ensures Valid() && (Usable() <==> !(name.Str? && IsName(name.text) && old(Lost(name.text, Null, answers))))
      ensures !Usable() ==> lastEnviron in freed
      ensures r == 0 ==> name.Str? && IsName(name.text)
      ensures name.Str? && IsName(name.text) ==>
        var absent := First(old(Entries()), name.text) == |old(Entries())|;
        r == if (if absent then answers.grown && answers.stored else replace ==> answers.stored) then 0 else -1
      ensures r == 0 ==> Entries() == Bound(old(Entries()), name.text, Entry(name.text, value), replace)
      ensures r != 0 ==> r == -1 && Entries() == old(Entries())
      ensures errno == if !(name.Str? && IsName(name.text)) then EINVAL else if r == 0 then old(errno) else ENOMEM
      ensures lastEnviron == old(lastEnviron) || (fresh(lastEnviron) && environ == lastEnviron && r == 0)
      ensures environ == old(environ) || environ == lastEnviron
    {
      if name == Null || name.text == "" || '=' in name.text {
        errno := EINVAL;
        return -1;
      }
      r := AddToEnviron(name.text, value, Null, replace, answers);
    }

    /** Any sequence of calls whose allocations succeed, wherever realloc puts the
        array. */
    method Run(calls: seq<Call>, answers: seq<Answers>)
      requires Usable() && |answers| == |calls|
      requires forall i :: 0 <= i < |calls| ==> NoTerminator(calls[i]) && answers[i].grown && answers[i].stored
      modifies this, environ, lastEnviron
      ensures Usable() && Entries() == AfterAll(old(Entries()), calls)
    {
      hide Bound, Without, Texts;
      var i := 0;
      while i < |calls|
        invariant 0 <= i <= |calls| && Usable()
        invariant lastEnviron == old(lastEnviron) || fresh(lastEnviron)
        invariant environ == old(environ) || environ == lastEnviron
        invariant Entries() == AfterAll(old(Entries()), calls[..i])
      {
        assert calls[..i + 1][..i] == calls[..i];
        assert NoTerminator(calls[i]);
        match calls[i] {
          case Set(name, value, replace) =>
            var r := Setenv(Str(name), value, replace, answers[i]);
          case Unset(name) =>
            var r := Unsetenv(Str(name));
        }
        i := i + 1;
      }
      assert calls[..|calls|] == calls;
    }
  }

  lemma OneEntry()
    ensures Bound([], "A", Entry("A", "1"), true) == ["A=1"]
    ensures First([], "A") == 0 && First(["A=1"], "B") == 1 && IsName("A") && IsName("B")
  {
    assert Entry("A", "1") == "A=1";
    assert "A=1"[..1] == "A";
    assert !Binds("A=1", "B");
    assert First(["A=1"][1..], "B") == 0;
  }

  /** A second binding for which realloc moves the array and malloc fails: both
      pointers of the module point to freed memory then. */
  method MallocBehindRealloc() returns (e: Environ)
    ensures fresh(e) && !e.Usable() && e.environ in e.freed && e.lastEnviron in e.freed
  {
    e := new Environ(null, 0);
    OneEntry();
    assert e.Entries() == [];
    var r := e.Setenv(Str("A"), "1", true, Answers(true, true, 0, true));
    assert e.Entries() == ["A=1"] && e.environ == e.lastEnviron;
    r := e.Setenv(Str("B"), "2", true, Answers(true, true, 0, false));
  }
}
