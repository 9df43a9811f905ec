/** The ring of harmless error messages (libdwarf/dwarf_harmless.c). */
module Harmless {
  import opened Common

  const TWO32: int := 0x1_0000_0000

  /** A message as it fits into a slot of DW_HARMLESS_ERROR_MSG_STRING_SIZE chars. */
  function Clip(m: string): (c: string)
    ensures |c| <= 299 && (|m| <= 299 ==> c == m)
  {
    if |m| <= 299 then m else m[..299]
  }

  /** The last n of a list. */
  function Keep<T>(s: seq<T>, n: nat): (r: seq<T>)
    ensures |r| == if |s| <= n then |s| else n
  {
    if |s| <= n then s else s[|s| - n..]
  }

  /** A clipped message is the beginning of the message, and what is kept of a list
      is the end of it. */
  lemma ClipAndKeep<T>(m: string, s: seq<T>, n: nat)
    ensures Clip(m) <= m && (|m| >= 299 ==> |Clip(m)| == 299)
    ensures exists k: nat :: k <= |s| && Keep(s, n) == s[k..] && (k > 0 ==> |s| - k == n)
  {
    assert Keep(s, n) == s[|s| - |Keep(s, n)|..];
  }

  /** What the ring stands for: its size, the messages kept, oldest first, and the
      32-bit count of messages since the last drain. */
  datatype Log = Log(size: nat, kept: seq<string>, count: nat)

  function Inserted(l: Log, m: string): Log {
    l.(kept := Keep(l.kept + [Clip(m)], l.size), count := (l.count + 1) % 0x1_0000_0000)
  }

  function Drained(l: Log): Log { l.(kept := [], count := 0) }

  function Resized(l: Log, size: nat): Log {
    if size == 0 || size == l.size then l
    else Log(size, Keep(l.kept, size), if l.kept == [] then 0 else Max(l.count, |l.kept| % 0x1_0000_0000))
  }

  function Max(a: nat, b: nat): nat { if a > b then a else b }

  /** Inserting one after the other is appending all and keeping the last. */
  function InsertedAll(l: Log, ms: seq<string>): Log
    decreases |ms|
  {
    if ms == [] then l else InsertedAll(Inserted(l, ms[0]), ms[1..])
  }

  function Clipped(ms: seq<string>): (s: seq<string>)
    ensures |s| == |ms| && forall i :: 0 <= i < |ms| ==> s[i] == Clip(ms[i])
  {
    seq(|ms|, i requires 0 <= i < |ms| => Clip(ms[i]))
  }

  lemma {:induction false} KeepsTheLast(l: Log, ms: seq<string>)
    requires |l.kept| <= l.size && l.count < TWO32
    ensures InsertedAll(l, ms) == Log(l.size, Keep(l.kept + Clipped(ms), l.size), (l.count + |ms|) % 0x1_0000_0000)
    decreases |ms|
  {
    if ms == [] {
      assert l.kept + Clipped(ms) == l.kept;
    } else {
      KeepsTheLast(Inserted(l, ms[0]), ms[1..]);
      InsertedFirst(l, ms);
    }
  }

  lemma InsertedFirst(l: Log, ms: seq<string>)
    requires ms != []
    ensures var l1 := Inserted(l, ms[0]);
      && Keep(l1.kept + Clipped(ms[1..]), l.size) == Keep(l.kept + Clipped(ms), l.size)
      && (l1.count + |ms[1..]|) % 0x1_0000_0000 == (l.count + |ms|) % 0x1_0000_0000
  {
    hide Keep, Clip;
    KeepTwice(l.kept + [Clip(ms[0])], Clipped(ms[1..]), l.size);
    assert l.kept + Clipped(ms) == (l.kept + [Clip(ms[0])]) + Clipped(ms[1..]);
    CountOn(l.count, |ms| - 1);
  }

  lemma CountOn(c: nat, n: nat)
    ensures ((c + 1) % 0x1_0000_0000 + n) % 0x1_0000_0000 == (c + (n + 1)) % 0x1_0000_0000
  {}

  lemma KeepTwice<T>(a: seq<T>, b: seq<T>, n: nat)
    ensures Keep(Keep(a, n) + b, n) == Keep(a + b, n)
  {
    if |a| > n {
      var d := |a| - n;
      assert Keep(a, n) + b == (a + b)[d..];
      if |b| > 0 { assert (a + b)[d..][|b|..] == (a + b)[d + |b|..]; }
    }
  }

  /** Resizing keeps the newest messages, and the total count whenever it has not
      wrapped around below the number of messages kept. */
  lemma ResizeKeeps(l: Log, size: nat)
    requires l.kept == [] ==> l.count == 0
    requires size > 0 && |l.kept| <= l.count < TWO32 && |l.kept| <= l.size
    ensures Resized(l, size).kept == Keep(l.kept, size) && Resized(l, size).count == l.count
  {}

  // ----------------------------------------------------------------- runs

  datatype Op = Insert(m: string) | Get | SetSize(size: nat)

  function Step(l: Log, op: Op): Log {
    match op
    case Insert(m) => Inserted(l, m)
    case Get => if l.count == 0 then l else Drained(l)
    case SetSize(size) => Resized(l, size)
  }

  function Run(l: Log, ops: seq<Op>): Log
    decreases |ops|
  {
    if ops == [] then l else Run(Step(l, ops[0]), ops[1..])
  }

  /** All messages since the last drain. */
  function Later(h: seq<string>, op: Op): seq<string> {
    match op
    case Insert(m) => h + [Clip(m)]
    case Get => []
    case SetSize(_) => h
  }

  function History(h: seq<string>, ops: seq<Op>): seq<string>
    decreases |ops|
  {
    if ops == [] then h else History(Later(h, ops[0]), ops[1..])
  }

  /** The ring holds the newest messages of the history, at least one if there are
      any, and counts them all. */
  predicate Refines(l: Log, h: seq<string>) {
    && |l.kept| <= |h| && l.kept == h[|h| - |l.kept|..] && |l.kept| <= l.size && 1 <= l.size
    && l.count == |h| && (h != [] ==> l.kept != [])
  }

  lemma KeepOfSuffix(k: seq<string>, h: seq<string>, n: nat)
    requires |k| <= |h| && k == h[|h| - |k|..]
    ensures var r := Keep(k, n); r == h[|h| - |r|..]
  {}

  lemma SuffixSnoc(k: seq<string>, h: seq<string>, m: string)
    requires |k| <= |h| && k == h[|h| - |k|..]
    ensures k + [m] == (h + [m])[|h| - |k|..]
  {}

  lemma Unwrapped(n: nat)
    requires n < TWO32
    ensures n % 0x1_0000_0000 == n
  {}

  lemma InsertRefines(l: Log, h: seq<string>, m: string)
    requires Refines(l, h) && |h| + 1 < TWO32
    ensures Refines(Inserted(l, m), h + [Clip(m)])
  {
    hide Keep, Clip;
    var c := Clip(m);
    SuffixSnoc(l.kept, h, c);
    KeepOfSuffix(l.kept + [c], h + [c], l.size);
    Unwrapped(l.count + 1);
  }

  lemma SetSizeRefines(l: Log, h: seq<string>, size: nat)
    requires Refines(l, h) && |h| < TWO32
    ensures Refines(Resized(l, size), h)
  {
    hide Keep;
    KeepOfSuffix(l.kept, h, size);
    Unwrapped(|l.kept|);
  }

  lemma StepRefines(l: Log, h: seq<string>, op: Op)
    requires Refines(l, h) && |h| + 1 < TWO32
    ensures Refines(Step(l, op), Later(h, op))
  {
    hide Inserted, Resized;
    match op {
      case Insert(m) => InsertRefines(l, h, m);
      case Get =>
      case SetSize(size) => SetSizeRefines(l, h, size);
    }
  }

  /** After every sequence of fewer than 2^32 insertions, drains and resizings. */
  lemma {:induction false} RunRefines(l: Log, h: seq<string>, ops: seq<Op>)
    requires Refines(l, h) && |h| + |ops| < TWO32
    ensures Refines(Run(l, ops), History(h, ops))
    decreases |ops|
  {
    hide Refines, Step;
    if ops != [] {
      StepRefines(l, h, ops[0]);
      RunRefines(Step(l, ops[0]), Later(h, ops[0]), ops[1..]);
    }
  }

  // ----------------------------------------------------------- the circle

  /** The slots from first up to next, around the end of the buffer. */
  function Window(buf: seq<string>, first: nat, next: nat): (w: seq<string>)
    requires first < |buf| && next < |buf|
    ensures |w| == if first <= next then next - first else |buf| - first + next
  {
    if first <= next then buf[first..next] else buf[first..] + buf[..next]
  }

  function After(i: nat, max: nat): (r: nat)
    requires i < max
    ensures r == if i + 1 == max then 0 else i + 1
  {
    AfterMod(i, max);
    (i + 1) % max
  }

  lemma AfterMod(i: nat, max: nat)
    requires i < max
    ensures (i + 1) % max == if i + 1 == max then 0 else i + 1
  {
    if i + 1 < max { SmallMod(i + 1, max); } else { assert max % max == 0; }
  }

  lemma SmallMod(a: nat, max: nat)
    requires a < max
    ensures a % max == a
  {}

  lemma WindowHead(buf: seq<string>, first: nat, next: nat)
    requires first < |buf| && next < |buf| && first != next
    ensures Window(buf, first, next) == [buf[first]] + Window(buf, After(first, |buf|), next)
  {}

  /** Writing a slot and moving on appends, and drops the oldest when full. */
  lemma WindowInsert(buf: seq<string>, first: nat, next: nat, m: string)
    requires first < |buf| && next < |buf|
    ensures var buf' := buf[next := m];
      var next' := After(next, |buf|);
      var first' := if next' == first then After(first, |buf|) else first;
      Window(buf', first', next') == Keep(Window(buf, first, next) + [m], |buf| - 1)
  {
    var buf' := buf[next := m];
    var next' := After(next, |buf|);
    if |buf| == 1 {
    } else if next' != first {
      assert Window(buf', first, next') == Window(buf, first, next) + [m];
    } else {
      var w := Window(buf, first, next);
      assert |w| == |buf| - 1;
      assert Window(buf', After(first, |buf|), next') == (w + [m])[1..];
    }
  }

  // ------------------------------------------------------- the code itself

  class Ring {
    var errors: array?<string>
    var maxcount: nat
    var nextToUse: nat
    var first: nat
    var errsCount: nat

    ghost predicate Valid()
      reads this, errors
    {
      && errsCount < TWO32 && errors != null && errors.Length == maxcount
      && first < maxcount && nextToUse < maxcount
      && forall i :: 0 <= i < errors.Length ==> |errors[i]| <= 299
    }

    ghost function Abs(): Log
      requires Valid()
      reads this, errors
    {
      Log(maxcount - 1, Window(errors[..], first, nextToUse), errsCount)
    }

    constructor (size: nat)
      ensures Valid() && fresh(errors) && Abs() == Log(size, [], 0)
    {
      errors, maxcount, nextToUse, first, errsCount := null, 0, 0, 0, 0;
      new;
      Init(size);
    }

    /** dwarf_harmless_init. */
    method Init(size: nat)
      modifies this
      ensures Valid() && fresh(errors) && Abs() == Log(size, [], 0)
    {
      nextToUse, first, errsCount := 0, 0, 0;
      maxcount := size + 1;
      errors := new string[maxcount](_ => "");
    }

    method Insert(newerror: string)
      requires Valid()
      modifies this`nextToUse, this`first, this`errsCount, errors
      ensures Valid() && Abs() == Inserted(old(Abs()), newerror)
    {
      var cur := nextToUse;
      ghost var buf := errors[..];
      errors[cur] := Clip(newerror);
      assert errors[..] == buf[cur := Clip(newerror)];
      WindowInsert(buf, first, cur, Clip(newerror));
      errsCount := (errsCount + 1) % 0x1_0000_0000;
      nextToUse := After(cur, maxcount);
      if nextToUse == first { first := After(first, maxcount); }
    }

    /** dwarf_get_harmless_error_list: as many messages as there is room for before a
        terminating null, oldest first; then the list is empty. */
    method GetList(count: nat, ptrs: array<Option<string>>) returns (res: Res<nat>)
      requires Valid() && count <= ptrs.Length
      modifies this`nextToUse, this`first, this`errsCount, ptrs
      ensures Valid() && Abs() == if res.NoEntry? then old(Abs()) else Drained(old(Abs()))
      ensures res == if old(errsCount) == 0 then NoEntry else Ok(old(errsCount))
      ensures res.NoEntry? ==> ptrs[..] == old(ptrs[..])
      ensures res.Ok? && count > 0 && old(Abs()).kept != [] ==> Delivered(ptrs[..count], old(Abs()).kept)
      ensures ptrs[count..] == old(ptrs[count..])
    {
      hide Window;
      if errsCount == 0 { return NoEntry; }
      res := Ok(errsCount);
      if count > 0 {
        ptrs[count - 1] := None;
        if nextToUse != first { Fill(count - 1, ptrs); }
      }
      nextToUse, first, errsCount := 0, 0, 0;
      assert Window(errors[..], 0, 0) == [] by { EmptyWindow(errors[..], 0); }
    }

    method Fill(room: nat, ptrs: array<Option<string>>)
      requires Valid() && room < ptrs.Length && ptrs[room] == None && nextToUse != first
      modifies ptrs
      ensures Delivered(ptrs[..room + 1], Abs().kept)
      ensures ptrs[room + 1..] == old(ptrs[room + 1..])
    {
      hide Window;
      ghost var kept := Abs().kept;
      var cur: nat, i: nat := first, 0;
      while cur != nextToUse
        invariant cur < maxcount && i <= room && i <= |kept|
        invariant Window(errors[..], cur, nextToUse) == kept[i..]
        invariant forall j :: 0 <= j < i ==> ptrs[j] == Some(kept[j])
        invariant ptrs[room] == None && ptrs[room + 1..] == old(ptrs[room + 1..])
        decreases |kept| - i
      {
        WindowHead(errors[..], cur, nextToUse);
        if i >= room { break; }
        ptrs[i] := Some(errors[cur]);
        cur, i := After(cur, maxcount), i + 1;
      }
      if cur == nextToUse { EmptyWindow(errors[..], cur); }
      ptrs[i] := None;
    }

    /** dwarf_set_harmless_error_list_size: the messages are inserted anew, from the
        oldest on; returns the size before. */
    method SetSize(size: nat) returns (was: nat)
      requires Valid()
      modifies this, errors
      ensures Valid() && (errors == old(errors) || fresh(errors))
      ensures was == old(Abs()).size && Abs() == Resized(old(Abs()), size)
    {
      hide Window, Keep, Clip;
      was := maxcount - 1;
      if size == 0 || size + 1 == maxcount { return; }
      var oldarray, from, to, count := errors, first, nextToUse, errsCount;
      ghost var kept := Abs().kept;
      EmptyWindow(oldarray[..], from);
      Init(size);
      if to != from {
        Reinsert(oldarray, from, to, kept);
        if count > errsCount { errsCount := count; }
      }
    }

    method Reinsert(oldarray: array<string>, from: nat, to: nat, ghost kept: seq<string>)
      requires Valid() && oldarray != errors && from < oldarray.Length && to < oldarray.Length
      requires forall i :: 0 <= i < oldarray.Length ==> |oldarray[i]| <= 299
      requires kept == Window(oldarray[..], from, to) && Abs() == Log(maxcount - 1, [], 0)
      modifies this`nextToUse, this`first, this`errsCount, errors
      ensures Valid() && Abs() == Log(maxcount - 1, Keep(kept, maxcount - 1), |kept| % 0x1_0000_0000)
    {
      hide Window, Keep, Clip, Inserted;
      ghost var buf := oldarray[..];
      var i: nat := from;
      ghost var k: nat := 0;
      assert kept[..0] == [];
      while i != to
        invariant Valid() && i < oldarray.Length && k <= |kept|
        invariant oldarray[..] == buf && Window(buf, i, to) == kept[k..]
        invariant Abs() == Log(maxcount - 1, Keep(kept[..k], maxcount - 1), k % 0x1_0000_0000)
        decreases |kept| - k
      {
        NextKept(buf, i, to, kept, k);
        InsertedNext(maxcount - 1, kept[..k], buf[i]);
        Insert(oldarray[i]);
        i, k := After(i, oldarray.Length), k + 1;
      }
      EmptyWindow(buf, i);
      assert kept[..k] == kept;
    }
  }

  lemma InsertedNext(size: nat, before: seq<string>, m: string)
    requires |m| <= 299
    ensures Inserted(Log(size, Keep(before, size), |before| % 0x1_0000_0000), m)
         == Log(size, Keep(before + [m], size), |before + [m]| % 0x1_0000_0000)
  {
    hide Keep;
    KeepTwice(before, [m], size);
    CountOn(|before|, 0);
  }

  lemma NextKept(buf: seq<string>, i: nat, to: nat, kept: seq<string>, k: nat)
    requires i < |buf| && to < |buf| && i != to && k <= |kept| && Window(buf, i, to) == kept[k..]
    ensures k < |kept| && Window(buf, After(i, |buf|), to) == kept[k + 1..]
    ensures kept[..k] + [buf[i]] == kept[..k + 1]
  {
    WindowHead(buf, i, to);
    assert kept[k..][0] == kept[k];
  }

  lemma EmptyWindow(buf: seq<string>, i: nat)
    requires i < |buf|
    ensures Window(buf, i, i) == []
  {}

  /** The first messages, as many as fit before the terminating null. */
  predicate Delivered(ptrs: seq<Option<string>>, kept: seq<string>)
    requires ptrs != []
  {
    var n := if |kept| < |ptrs| then |kept| else |ptrs| - 1;
    ptrs[n] == None && forall j :: 0 <= j < n ==> ptrs[j] == Some(kept[j])
  }
}
