/** From a command line to the initial user stack: `strtok_r` in place on a copy
    of the line, and `push_argument` on the zeroed page below the top of user
    memory. */
module Arguments {
  import opened Helpers
  import opened Storage
  import opened Encoding

  const BLANK: seq<Byte> := [32]
  const MAX_CMD_SIZE: nat := 256

  // ----- tokens -----

  /** `strchr` on a string finds its characters and its terminator. */
  predicate Strchr(ds: seq<Byte>, c: Byte) { c in ds || c == 0 }

  ghost predicate Apart(ds: seq<Byte>, t: seq<Byte>) { forall c | c in t :: c !in ds }

  /** The first position from `i` that is no delimiter. */
  function Skip(ds: seq<Byte>, s: seq<Byte>, i: nat): (k: nat)
    requires i <= |s|
    ensures i <= k <= |s| && (k < |s| ==> s[k] !in ds) && forall j | i <= j < k :: s[j] in ds
    decreases |s| - i
  {
    if i < |s| && s[i] in ds then Skip(ds, s, i + 1) else i
  }

  /** The first position from `i` that is a delimiter. */
  function End(ds: seq<Byte>, s: seq<Byte>, i: nat): (k: nat)
    requires i <= |s|
    ensures i <= k <= |s| && (k < |s| ==> s[k] in ds) && forall j | i <= j < k :: s[j] !in ds
    decreases |s| - i
  {
    if i < |s| && s[i] !in ds then End(ds, s, i + 1) else i
  }

  /** Where the search for the token after one that ends at `e` starts. */
  function Next(s: seq<Byte>, e: nat): nat { if e < |s| then e + 1 else e }

  /** The tokens from position `i` on. */
  ghost function Tokens(ds: seq<Byte>, s: seq<Byte>, i: nat): seq<seq<Byte>>
    requires i <= |s|
    decreases |s| - i
  {
    var b := Skip(ds, s, i);
    if b == |s| then []
    else var e := End(ds, s, b); [s[b..e]] + Tokens(ds, s, Next(s, e))
  }

  /** The characters that are no delimiters. */
  ghost function Text(ds: seq<Byte>, s: seq<Byte>): seq<Byte> {
    if s == [] then [] else (if s[0] in ds then [] else [s[0]]) + Text(ds, s[1..])
  }

  ghost function Joined(ts: seq<seq<Byte>>): seq<Byte> {
    if ts == [] then [] else ts[0] + Joined(ts[1..])
  }

  lemma {:induction false} TextOfRun(ds: seq<Byte>, s: seq<Byte>, rest: seq<Byte>)
    requires forall j | 0 <= j < |s| :: s[j] !in ds
    ensures Text(ds, s + rest) == s + Text(ds, rest)
  {
    if s != [] {
      assert (s + rest)[1..] == s[1..] + rest;
      TextOfRun(ds, s[1..], rest);
    } else {
      assert s + rest == rest;
    }
  }

  lemma {:induction false} TextOfGap(ds: seq<Byte>, s: seq<Byte>, rest: seq<Byte>)
    requires forall j | 0 <= j < |s| :: s[j] in ds
    ensures Text(ds, s + rest) == Text(ds, rest)
  {
    if s != [] {
      assert (s + rest)[1..] == s[1..] + rest;
      TextOfGap(ds, s[1..], rest);
    } else {
      assert s + rest == rest;
    }
  }

  lemma FirstToken(ds: seq<Byte>, s: seq<Byte>, i: nat, b: nat, e: nat, n: nat)
    requires i <= b <= e <= n <= |s|
    requires forall j | i <= j < b :: s[j] in ds
    requires forall j | b <= j < e :: s[j] !in ds
    requires forall j | e <= j < n :: s[j] in ds
    ensures Text(ds, s[i..]) == s[b..e] + Text(ds, s[n..])
  {
    hide Text;
    TextOfGap(ds, s[i..b], s[b..]);
    assert s[i..] == s[i..b] + s[b..];
    TextOfRun(ds, s[b..e], s[e..]);
    assert s[b..] == s[b..e] + s[e..];
    TextOfGap(ds, s[e..n], s[n..]);
    assert s[e..] == s[e..n] + s[n..];
  }

  /** The tokens hold the line's text in order, no token is empty or holds a
      delimiter. */
  lemma {:induction false} TokensAreText(ds: seq<Byte>, s: seq<Byte>, i: nat)
    requires i <= |s|
    ensures Joined(Tokens(ds, s, i)) == Text(ds, s[i..])
    ensures forall k | 0 <= k < |Tokens(ds, s, i)| :: Tokens(ds, s, i)[k] != [] && Apart(ds, Tokens(ds, s, i)[k])
    decreases |s| - i
  {
    hide Text, Skip, End;
    var b := Skip(ds, s, i);
    if b == |s| {
      FirstToken(ds, s, i, b, b, b);
      NoText(ds, s);
    } else {
      var e := End(ds, s, b);
      var n := Next(s, e);
      FirstToken(ds, s, i, b, e, n);
      TokensAreText(ds, s, n);
      assert ([s[b..e]] + Tokens(ds, s, n))[1..] == Tokens(ds, s, n);
    }
  }

  lemma NoText(ds: seq<Byte>, s: seq<Byte>)
    ensures Text(ds, s[|s|..]) == []
  {
  }

  /** The room that strings and their terminators take. */
  ghost function Size(ts: seq<seq<Byte>>): nat {
    if ts == [] then 0 else |ts[0]| + 1 + Size(ts[1..])
  }

  /** A line of n characters has at most (n + 1) / 2 tokens, and they fit in n + 1
      bytes. */
  lemma {:induction false} TokensFit(ds: seq<Byte>, s: seq<Byte>, i: nat)
    requires i <= |s|
    ensures 2 * |Tokens(ds, s, i)| <= |s| - i + 1 && Size(Tokens(ds, s, i)) <= |s| - i + 1
    decreases |s| - i
  {
    var b := Skip(ds, s, i);
    if b < |s| {
      var e := End(ds, s, b);
      TokensFit(ds, s, Next(s, e));
      assert ([s[b..e]] + Tokens(ds, s, Next(s, e)))[1..] == Tokens(ds, s, Next(s, e));
      if e == |s| {
        assert Tokens(ds, s, e) == [];
      }
    }
  }

  // ----- tokenising in place -----

  /** The buffer from `i` on is what the line is from `i` on, and ends there. */
  ghost predicate Rest(buf: seq<Byte>, line: seq<Byte>, i: nat) {
    i <= |line| < |buf| && buf[|line|] == 0 && 0 !in line && forall k | i <= k < |line| :: buf[k] == line[k]
  }

  /** A terminated string in the buffer. */
  ghost predicate StringAt(buf: seq<Byte>, at: nat, t: seq<Byte>) {
    && at + |t| < |buf| && 0 !in t && buf[at + |t|] == 0
    && forall k | 0 <= k < |t| :: buf[at + k] == t[k]
  }

  /** `strtok_r` with delimiters `ds` from position `start`: the next token, ended in
      place, and where to go on. */
  method Strtok(ds: seq<Byte>, buf: array<Byte>, start: nat, ghost line: seq<Byte>) returns (token: Option<nat>, save: nat)
    requires Rest(buf[..], line, start)
    modifies buf
    ensures var b := Skip(ds, line, start);
            if b == |line| then token == None && save == b && buf[..] == old(buf[..])
            else var e := End(ds, line, b);
                 && token == Some(b) && save == Next(line, e) && StringAt(buf[..], b, line[b..e])
                 && buf[..] == old(buf[..])[e := 0]
    ensures Rest(buf[..], line, save)
  {
    var s := start;
    while Strchr(ds, buf[s])
      invariant start <= s <= |line| && Skip(ds, line, s) == Skip(ds, line, start) && buf[..] == old(buf[..])
      decreases |line| - s
    {
      if buf[s] == 0 {
        return None, s;
      }
      s := s + 1;
    }
    var b := s;
    while !Strchr(ds, buf[s])
      invariant b <= s <= |line| && End(ds, line, s) == End(ds, line, b) && buf[..] == old(buf[..])
      decreases |line| - s
    {
      s := s + 1;
    }
    if buf[s] != 0 {
      buf[s] := 0;
      save := s + 1;
    } else {
      save := s;
    }
    token := Some(b);
  }

  /** The strings found so far lie before the position reached. */
  ghost predicate Found(buf: seq<Byte>, offsets: seq<nat>, ts: seq<seq<Byte>>, line: seq<Byte>, save: nat) {
    && |offsets| <= |ts|
    && forall k | 0 <= k < |offsets| ::
         StringAt(buf, offsets[k], ts[k]) && (offsets[k] + |ts[k]| < save || save == |line|)
  }

  lemma FoundMore(ds: seq<Byte>, buf: seq<Byte>, n: seq<Byte>, offsets: seq<nat>, ts: seq<seq<Byte>>, line: seq<Byte>, save: nat)
    requires Found(buf, offsets, ts, line, save) && save <= |line| && |offsets| < |ts|
    requires Skip(ds, line, save) < |line|
    requires var b := Skip(ds, line, save); var e := End(ds, line, b);
             e < |buf| && n == buf[e := 0] && StringAt(n, b, line[b..e]) && ts[|offsets|] == line[b..e]
    ensures var b := Skip(ds, line, save); var e := End(ds, line, b);
            Found(n, offsets + [b], ts, line, Next(line, e))
  {
    hide Skip, End;
    var b := Skip(ds, line, save);
    var e := End(ds, line, b);
    forall k | 0 <= k < |offsets| ensures StringAt(n, offsets[k], ts[k]) && offsets[k] + |ts[k]| < e {
      assert StringAt(buf, offsets[k], ts[k]);
    }
  }

  /** The tokens of a line, at most 128 of them, each a terminated string in the
      buffer. */
  method Tokenise(ds: seq<Byte>, buf: array<Byte>, ghost line: seq<Byte>) returns (arguments: array<nat>, argc: nat)
    requires Rest(buf[..], line, 0) && |line| < MAX_CMD_SIZE
    modifies buf
    ensures fresh(arguments) && arguments.Length == 128 && argc == |Tokens(ds, line, 0)| <= 128
    ensures forall k | 0 <= k < argc :: StringAt(buf[..], arguments[k], Tokens(ds, line, 0)[k])
  {
    hide Skip, End, StringAt, Found, Rest, Tokens;
    arguments := new nat[128];
    argc := 0;
    ghost var ts := Tokens(ds, line, 0);
    TokensFit(ds, line, 0);
    var at: nat := 0;
    NothingFound(ds, buf[..], ts, line);
    while true
      invariant argc <= |ts| <= 128 && at <= |line| && TokensLeft(ds, ts, argc, line, at)
      invariant Rest(buf[..], line, at) && Found(buf[..], arguments[..argc], ts, line, at)
      decreases |ts| - argc
    {
      var more, save := TakeToken(ds, buf, arguments, argc, at, line, ts);
      if !more {
        break;
      }
      argc, at := argc + 1, save;
    }
    FoundAll(buf[..], arguments[..argc], ts, line, at);
  }

  /** The next token's address kept, if there is one. */
  method TakeToken(ds: seq<Byte>, buf: array<Byte>, arguments: array<nat>, argc: nat, at: nat, ghost line: seq<Byte>,
                   ghost ts: seq<seq<Byte>>) returns (more: bool, save: nat)
    requires arguments.Length == 128 && argc <= |ts| <= 128 && TokensLeft(ds, ts, argc, line, at)
    requires Rest(buf[..], line, at) && Found(buf[..], arguments[..argc], ts, line, at)
    modifies buf, arguments
    ensures !more ==> argc == |ts| && Found(buf[..], arguments[..argc], ts, line, at)
    ensures more ==> && argc < |ts| && TokensLeft(ds, ts, argc + 1, line, save) && Rest(buf[..], line, save)
                     && Found(buf[..], arguments[..argc + 1], ts, line, save)
  {
    hide Skip, End, StringAt, Found, Rest, Tokens;
    ghost var before := buf[..];
    var token;
    token, save := Strtok(ds, buf, at, line);
    OneLess(ds, ts, argc, line, at);
    more := token.Some?;
    if more {
      WithinBuffer(ds, buf[..], line, at, save);
      FoundMore(ds, before, buf[..], arguments[..argc], ts, line, at);
      arguments[argc] := token.value;
      assert arguments[..argc + 1] == arguments[..argc] + [token.value];
    }
  }

  ghost predicate TokensLeft(ds: seq<Byte>, ts: seq<seq<Byte>>, argc: nat, line: seq<Byte>, at: nat) {
    argc <= |ts| && at <= |line| && ts[argc..] == Tokens(ds, line, at)
  }

  lemma NothingFound(ds: seq<Byte>, buf: seq<Byte>, ts: seq<seq<Byte>>, line: seq<Byte>)
    requires ts == Tokens(ds, line, 0)
    ensures Found(buf, [], ts, line, 0) && TokensLeft(ds, ts, 0, line, 0)
  {
    hide Tokens;
    assert ts[0..] == ts;
  }

  lemma OneLess(ds: seq<Byte>, ts: seq<seq<Byte>>, argc: nat, line: seq<Byte>, at: nat)
    requires TokensLeft(ds, ts, argc, line, at)
    ensures var b := Skip(ds, line, at);
            if b == |line| then argc == |ts|
            else var e := End(ds, line, b);
                 argc < |ts| && ts[argc] == line[b..e] && TokensLeft(ds, ts, argc + 1, line, Next(line, e))
  {
    hide Skip, End;
    var b := Skip(ds, line, at);
    if b < |line| {
      var e := End(ds, line, b);
      assert ts[argc..][0] == line[b..e] && ts[argc..][1..] == ts[argc + 1..];
    }
  }

  lemma WithinBuffer(ds: seq<Byte>, buf: seq<Byte>, line: seq<Byte>, at: nat, save: nat)
    requires Rest(buf, line, save) && at <= |line|
    ensures End(ds, line, Skip(ds, line, at)) < |buf|
  {
    hide Skip, End;
  }

  lemma FoundAll(buf: seq<Byte>, offsets: seq<nat>, ts: seq<seq<Byte>>, line: seq<Byte>, at: nat)
    requires Found(buf, offsets, ts, line, at)
    ensures forall k | 0 <= k < |offsets| :: StringAt(buf, offsets[k], ts[k])
  {
  }

  // ----- the stack page -----

  const STACK_BASE: nat := PHYS_BASE - PGSIZE

  /** The strings with their terminators. */
  ghost function Strings(ts: seq<seq<Byte>>): (b: seq<Byte>)
    ensures |b| == Size(ts)
  {
    if ts == [] then [] else ts[0] + [0] + Strings(ts[1..])
  }

  /** Where string `k` is, with all of them at the top of the stack. */
  ghost function AddrOf(ts: seq<seq<Byte>>, k: nat): int
    requires k <= |ts|
  {
    PHYS_BASE - Size(ts[k..])
  }

  /** The addresses of the strings from `k` on, as words. */
  ghost function Pointers(ts: seq<seq<Byte>>, k: nat): (b: seq<Byte>)
    requires k <= |ts| && Size(ts) <= PGSIZE
    ensures |b| == 4 * (|ts| - k)
    decreases |ts| - k
  {
    if k == |ts| then []
    else SuffixSize(ts, k); Le32(AddrOf(ts, k)) + Pointers(ts, k + 1)
  }

  lemma {:induction false} SuffixSize(ts: seq<seq<Byte>>, k: nat)
    requires k <= |ts|
    ensures Size(ts[k..]) <= Size(ts)
    decreases k
  {
    if k == 0 {
      assert ts[0..] == ts;
    } else {
      SuffixSize(ts, k - 1);
      assert ts[k - 1..][1..] == ts[k..];
    }
  }

  function Padding(written: nat): nat { (4 - written % 4) % 4 }

  ghost function Argv(ts: seq<seq<Byte>>): int {
    PHYS_BASE - Size(ts) - Padding(Size(ts)) - 4 - 4 * |ts|
  }

  ghost predicate Fits(ts: seq<seq<Byte>>) { |ts| <= 128 && Size(ts) <= MAX_CMD_SIZE }

  /** What the top of the stack holds: argc, argv, the addresses, a null, padding and
      the strings. */
  ghost function Image(ts: seq<seq<Byte>>): (b: seq<Byte>)
    requires Fits(ts)
    ensures |b| == 8 + 4 * |ts| + 4 + Padding(Size(ts)) + Size(ts)
  {
    Le32(|ts|) + Le32(Argv(ts)) + Pointers(ts, 0) + Zeros(4 + Padding(Size(ts))) + Strings(ts)
  }

  /** The page holds nothing below `top` of it. */
  ghost predicate Topped(stack: seq<Byte>, top: seq<Byte>) {
    |stack| == PGSIZE && |top| <= PGSIZE && stack == Zeros(PGSIZE - |top|) + top
  }

  /** `memcpy` to the stack. */
  method Put(stack: array<Byte>, addr: int, data: seq<Byte>)
    requires STACK_BASE <= addr && addr + |data| <= STACK_BASE + stack.Length
    modifies stack
    ensures var x := addr - STACK_BASE;
            stack[..] == old(stack[..])[..x] + data + old(stack[..])[x + |data|..]
  {
    forall k | 0 <= k < |data| {
      stack[addr - STACK_BASE + k] := data[k];
    }
  }

  lemma PutOnTop(stack: seq<Byte>, top: seq<Byte>, n: seq<Byte>, gap: nat, data: seq<Byte>)
    requires Topped(stack, top) && |data| + gap + |top| <= PGSIZE
    requires var x := PGSIZE - |top| - gap - |data|; n == stack[..x] + data + stack[x + |data|..]
    ensures Topped(n, data + Zeros(gap) + top)
  {
    var x := PGSIZE - |top| - gap - |data|;
    var t := data + Zeros(gap) + top;
    assert |n| == PGSIZE;
    assert n == Zeros(x) + t;
  }

  lemma PutOn(stack: seq<Byte>, top: seq<Byte>, n: seq<Byte>, data: seq<Byte>)
    requires Topped(stack, top) && |data| + |top| <= PGSIZE
    requires var x := PGSIZE - |top| - |data|; n == stack[..x] + data + stack[x + |data|..]
    ensures Topped(n, data + top)
  {
    PutOnTop(stack, top, n, 0, data);
    assert data + Zeros(0) + top == data + top;
  }

  lemma ZerosOnTop(stack: seq<Byte>, top: seq<Byte>, gap: nat)
    requires Topped(stack, top) && gap + |top| <= PGSIZE
    ensures Topped(stack, Zeros(gap) + top)
  {
    assert Zeros(PGSIZE - |top|) == Zeros(PGSIZE - |top| - gap) + Zeros(gap);
    assert stack == Zeros(PGSIZE - |top| - gap) + (Zeros(gap) + top);
  }

  method Strlen(buf: array<Byte>, at: nat, ghost t: seq<Byte>) returns (n: nat)
    requires StringAt(buf[..], at, t)
    ensures n == |t| && at + n <= buf.Length && buf[at..at + n] == t
  {
    n := 0;
    while buf[at + n] != 0
      invariant n <= |t| && (n < |t| ==> buf[at + n] == t[n] != 0)
      decreases |t| - n
    {
      n := n + 1;
    }
  }

  lemma OneString(ts: seq<seq<Byte>>, i: nat)
    requires i < |ts|
    ensures Size(ts[i..]) == |ts[i]| + 1 + Size(ts[i + 1..])
    ensures Strings(ts[i..]) == ts[i] + Zeros(1) + Strings(ts[i + 1..])
  {
    assert ts[i..][1..] == ts[i + 1..];
    assert Zeros(1) == [0];
  }

  /** The strings copied to the top of the page, the last one first. */
  method WriteStrings(buf: array<Byte>, arguments: array<nat>, argc: nat, stack: array<Byte>, ghost ts: seq<seq<Byte>>)
      returns (esp: int, written: nat, addresses: array<nat>)
    requires arguments.Length == 128 && argc == |ts| && Fits(ts) && buf != stack
    requires forall k | 0 <= k < argc :: StringAt(buf[..], arguments[k], ts[k])
    requires stack.Length == PGSIZE && Topped(stack[..], [])
    modifies stack
    ensures esp == PHYS_BASE - Size(ts) && written == Size(ts) && Topped(stack[..], Strings(ts))
    ensures fresh(addresses) && addresses.Length == 128 && forall k | 0 <= k < argc :: addresses[k] == AddrOf(ts, k)
  {
    hide Size, Strings, StringAt, Topped;
    addresses := new nat[128];
    esp, written := PHYS_BASE, 0;
    NoStrings(ts);
    var i: nat := argc;
    while i > 0
      invariant i <= argc && esp == AddrOf(ts, i) && written == Size(ts[i..])
      invariant Topped(stack[..], Strings(ts[i..]))
      invariant forall k | i <= k < argc :: addresses[k] == AddrOf(ts, k)
      modifies stack, addresses
    {
      i := i - 1;
      var length := Strlen(buf, arguments[i], ts[i]);
      OneString(ts, i);
      SuffixSize(ts, i);
      esp := esp - (length + 1);
      written := written + (length + 1);
      ghost var before := stack[..];
      Put(stack, esp, buf[arguments[i]..arguments[i] + length]);
      PutOnTop(before, Strings(ts[i + 1..]), stack[..], 1, ts[i]);
      addresses[i] := esp;
    }
    assert ts[0..] == ts;
  }

  lemma NoStrings(ts: seq<seq<Byte>>)
    ensures Size(ts[|ts|..]) == 0 && Strings(ts[|ts|..]) == []
  {
  }

  /** The addresses of the strings, below `below`. */
  method WritePointers(stack: array<Byte>, addresses: array<nat>, argc: nat, esp0: int, ghost below: seq<Byte>,
                       ghost ts: seq<seq<Byte>>) returns (esp: int)
    requires addresses.Length == 128 && argc == |ts| && Fits(ts)
    requires forall k | 0 <= k < argc :: addresses[k] == AddrOf(ts, k)
    requires stack.Length == PGSIZE && Topped(stack[..], below) && |below| <= MAX_CMD_SIZE + 8
    requires esp0 == PHYS_BASE - |below|
    modifies stack
    ensures esp == esp0 - 4 * argc && Topped(stack[..], Pointers(ts, 0) + below)
  {
    hide Size, Topped;
    esp := esp0;
    var i: nat := argc;
    assert Pointers(ts, argc) + below == below;
    while i > 0
      invariant i <= argc && esp == esp0 - 4 * (argc - i) && Topped(stack[..], Pointers(ts, i) + below)
    {
      i := i - 1;
      SuffixSize(ts, i);
      esp := esp - 4;
      ghost var before := stack[..];
      Put(stack, esp, Le32(addresses[i]));
      PutOn(before, Pointers(ts, i + 1) + below, stack[..], Le32(addresses[i]));
      assert Le32(addresses[i]) + (Pointers(ts, i + 1) + below) == Pointers(ts, i) + below;
    }
  }

  /** The stack that a command line leaves. */
  method PushArgument(buf: array<Byte>, ghost line: seq<Byte>, stack: array<Byte>) returns (esp: int)
    requires Rest(buf[..], line, 0) && |line| < MAX_CMD_SIZE && buf != stack
    requires stack.Length == PGSIZE && stack[..] == Zeros(PGSIZE)
    modifies buf, stack
    ensures Fits(Tokens(BLANK, line, 0)) && Topped(stack[..], Image(Tokens(BLANK, line, 0)))
    ensures esp == PHYS_BASE - |Image(Tokens(BLANK, line, 0))| - 4
  {
    hide Size, Strings, Topped, Tokens, Pointers, Padding, StringAt, Rest, AddrOf;
    ghost var ts := Tokens(BLANK, line, 0);
    TokensFit(BLANK, line, 0);
    EmptyTop(stack[..]);
    var arguments, argc := Tokenise(BLANK, buf, line);
    var written, addresses;
    esp, written, addresses := WriteStrings(buf, arguments, argc, stack, ts);
    var padding := Padding(written);
    PaddingSmall(written);
    ZerosOnTop(stack[..], Strings(ts), 4 + padding);
    ghost var below := Zeros(4 + padding) + Strings(ts);
    esp := esp - (padding + 4);
    esp := WritePointers(stack, addresses, argc, esp, below, ts);
    esp := WriteHead(stack, argc, esp, Pointers(ts, 0) + below);
    ImageIs(ts, below);
  }

  /** The address of the pointers, their number, and room for a return address. */
  method WriteHead(stack: array<Byte>, argc: nat, esp0: int, ghost top: seq<Byte>) returns (esp: int)
    requires stack.Length == PGSIZE && Topped(stack[..], top) && |top| <= PGSIZE - 8 && esp0 == PHYS_BASE - |top|
    requires argc < MAX32
    modifies stack
    ensures esp == esp0 - 12 && Topped(stack[..], Le32(argc) + (Le32(esp0) + top))
  {
    hide Topped;
    esp := esp0 - 4;
    ghost var before := stack[..];
    Put(stack, esp, Le32(esp0));
    PutOn(before, top, stack[..], Le32(esp0));
    esp := esp - 4;
    before := stack[..];
    Put(stack, esp, Le32(argc));
    PutOn(before, Le32(esp0) + top, stack[..], Le32(argc));
    esp := esp - 4;
  }

  lemma ImageIs(ts: seq<seq<Byte>>, below: seq<Byte>)
    requires Fits(ts) && below == Zeros(4 + Padding(Size(ts))) + Strings(ts)
    ensures Argv(ts) == PHYS_BASE - |Pointers(ts, 0) + below|
    ensures Le32(|ts|) + (Le32(Argv(ts)) + (Pointers(ts, 0) + below)) == Image(ts)
  {
    hide Size, Pointers, Strings, Padding, Zeros, Le32;
    PaddingSmall(Size(ts));
  }

  lemma EmptyTop(stack: seq<Byte>)
    requires stack == Zeros(PGSIZE)
    ensures Topped(stack, [])
  {
    assert Zeros(PGSIZE) + [] == Zeros(PGSIZE);
  }

  lemma PaddingSmall(n: nat)
    ensures Padding(n) < 4 && (n + Padding(n)) % 4 == 0
  {
  }

  // ----- what the program finds there -----

  /** The word at an address of the stack page. */
  ghost function WordAt(stack: seq<Byte>, addr: int): nat
    requires |stack| == PGSIZE && STACK_BASE <= addr <= PHYS_BASE - 4
  {
    var x := addr - STACK_BASE;
    FromLe32(stack[x..x + 4])
  }

  /** Word `k` of a vector. */
  ghost function Nth(stack: seq<Byte>, argv: int, k: nat): nat
    requires |stack| == PGSIZE && STACK_BASE <= argv && argv + 4 * k <= PHYS_BASE - 4
  {
    WordAt(stack, argv + 4 * k)
  }

  lemma TopSlice(stack: seq<Byte>, top: seq<Byte>, o: nat, n: nat)
    requires Topped(stack, top) && o + n <= |top|
    ensures var x := PGSIZE - |top| + o; stack[x..x + n] == top[o..o + n]
  {
  }

  lemma TopWord(stack: seq<Byte>, top: seq<Byte>, o: nat, v: nat)
    requires Topped(stack, top) && o + 4 <= |top| && v < MAX32 && top[o..o + 4] == Le32(v)
    ensures WordAt(stack, PHYS_BASE - |top| + o) == v
  {
    hide Le32, FromLe32;
    TopSlice(stack, top, o, 4);
    Le32RoundTrip(v);
  }

  lemma {:induction false} PointerAt(ts: seq<seq<Byte>>, j: nat, k: nat)
    requires j <= k < |ts| && Size(ts) <= PGSIZE
    ensures 0 <= AddrOf(ts, k) < MAX32 && Pointers(ts, j)[4 * (k - j)..4 * (k - j) + 4] == Le32(AddrOf(ts, k))
    decreases k - j
  {
    hide Size, Le32;
    SuffixSize(ts, k);
    SuffixSize(ts, j);
    if j < k {
      PointerAt(ts, j + 1, k);
      var rest := Pointers(ts, j + 1);
      assert Pointers(ts, j)[4..] == rest;
      assert Pointers(ts, j)[4..][4 * (k - j) - 4..4 * (k - j)] == Pointers(ts, j)[4 * (k - j)..4 * (k - j) + 4];
    }
  }

  lemma {:induction false} StringSuffix(ts: seq<seq<Byte>>, k: nat)
    requires k <= |ts|
    ensures Size(ts[k..]) <= Size(ts) && Strings(ts)[Size(ts) - Size(ts[k..])..] == Strings(ts[k..])
    decreases k
  {
    if k == 0 {
      assert ts[0..] == ts;
    } else {
      StringSuffix(ts, k - 1);
      OneString(ts, k - 1);
      var s, t := Strings(ts), ts[k - 1] + Zeros(1);
      var x := Size(ts) - Size(ts[k - 1..]);
      assert s[x..][|t|..] == s[x + |t|..];
    }
  }

  /** The words of the head of the stack. */
  lemma HeadWords(stack: seq<Byte>, ts: seq<seq<Byte>>)
    requires Fits(ts) && Topped(stack, Image(ts))
    ensures var esp := PHYS_BASE - |Image(ts)| - 4;
            && STACK_BASE <= esp && esp % 4 == 0 && WordAt(stack, esp) == 0
            && WordAt(stack, esp + 4) == |ts| && WordAt(stack, esp + 8) == Argv(ts) == esp + 12
  {
    hide Size, Pointers, Strings, Le32, FromLe32, Padding;
    PaddingSmall(Size(ts));
    var top := Image(ts);
    assert top[0..4] == Le32(|ts|) && top[4..8] == Le32(Argv(ts));
    TopWord(stack, top, 0, |ts|);
    TopWord(stack, top, 4, Argv(ts));
    ZeroWord(stack, PGSIZE - |top| - 4);
  }

  lemma ZeroWord(stack: seq<Byte>, x: nat)
    requires |stack| == PGSIZE && x + 4 <= PGSIZE && forall k | x <= k < x + 4 :: stack[k] == 0
    ensures WordAt(stack, STACK_BASE + x) == 0
  {
  }

  /** The words of the vector, and the null after them. */
  lemma VectorWords(stack: seq<Byte>, ts: seq<seq<Byte>>)
    requires Fits(ts) && Topped(stack, Image(ts))
    ensures STACK_BASE <= Argv(ts) && Argv(ts) + 4 * |ts| <= PHYS_BASE - 4
    ensures forall k | 0 <= k < |ts| :: Nth(stack, Argv(ts), k) == AddrOf(ts, k)
    ensures Nth(stack, Argv(ts), |ts|) == 0
  {
    hide Size, Pointers, Strings, Le32, FromLe32, Padding, AddrOf;
    PaddingSmall(Size(ts));
    var top := Image(ts);
    forall k | 0 <= k < |ts| ensures Nth(stack, Argv(ts), k) == AddrOf(ts, k) {
      PointerAt(ts, 0, k);
      assert top[8 + 4 * k..8 + 4 * k + 4] == Pointers(ts, 0)[4 * k..4 * k + 4];
      TopWord(stack, top, 8 + 4 * k, AddrOf(ts, k));
    }
    ZeroWord(stack, PGSIZE - |top| + 8 + 4 * |ts|);
  }

  /** Each argument's string, terminated. */
  lemma StringsThere(stack: seq<Byte>, ts: seq<seq<Byte>>, k: nat)
    requires Fits(ts) && Topped(stack, Image(ts)) && k < |ts| && 0 !in ts[k]
    ensures STACK_BASE <= AddrOf(ts, k) && StringAt(stack, AddrOf(ts, k) - STACK_BASE, ts[k])
  {
    hide Pointers, Le32, Padding, Image, Size, Strings;
    SuffixSize(ts, k);
    StringSuffix(ts, k);
    OneString(ts, k);
    EndsInStrings(stack, ts, k);
  }

  lemma EndsInStrings(stack: seq<Byte>, ts: seq<seq<Byte>>, k: nat)
    requires Fits(ts) && Topped(stack, Image(ts)) && k < |ts| && Size(ts[k..]) <= Size(ts)
    requires Strings(ts)[Size(ts) - Size(ts[k..])..] == Strings(ts[k..])
    ensures stack[PGSIZE - Size(ts[k..])..] == Strings(ts[k..])
  {
    hide Pointers, Le32, Padding, Size, Strings;
    var top := Image(ts);
    assert top[|top| - Size(ts)..] == Strings(ts);
    assert stack[PGSIZE - Size(ts)..] == Strings(ts);
    assert stack[PGSIZE - Size(ts)..][Size(ts) - Size(ts[k..])..] == stack[PGSIZE - Size(ts[k..])..];
  }

  lemma {:induction false} TokensHaveNoNul(ds: seq<Byte>, s: seq<Byte>, i: nat)
    requires i <= |s| && 0 !in s
    ensures forall k | 0 <= k < |Tokens(ds, s, i)| :: 0 !in Tokens(ds, s, i)[k]
    decreases |s| - i
  {
    hide Skip, End;
    var b := Skip(ds, s, i);
    if b < |s| {
      TokensHaveNoNul(ds, s, Next(s, End(ds, s, b)));
    }
  }

  /** What the program's start-up code relies on: an aligned stack pointer in the
      page, argc and argv above the return address, and a null-terminated vector of
      pointers to the terminated arguments. */
  ghost predicate ArgumentsAt(stack: seq<Byte>, esp: int, ts: seq<seq<Byte>>) {
    && |stack| == PGSIZE && STACK_BASE <= esp && esp % 4 == 0 && esp + 16 + 4 * |ts| <= PHYS_BASE
    && WordAt(stack, esp + 4) == |ts|
    && var argv := WordAt(stack, esp + 8);
       && STACK_BASE <= argv && argv + 4 * |ts| <= PHYS_BASE - 4 && Nth(stack, argv, |ts|) == 0
       && forall k | 0 <= k < |ts| ::
            var a := Nth(stack, argv, k); STACK_BASE <= a && StringAt(stack, a - STACK_BASE, ts[k])
  }

  /** What `strlcpy` keeps of a command line. */
  function Cut(cmd: seq<Byte>): (line: seq<Byte>)
    ensures |line| < MAX_CMD_SIZE && line <= cmd
  {
    if |cmd| < MAX_CMD_SIZE then cmd else cmd[..MAX_CMD_SIZE - 1]
  }

  method CopyLine(cmd: seq<Byte>) returns (buf: array<Byte>)
    requires 0 !in cmd
    ensures fresh(buf) && Rest(buf[..], Cut(cmd), 0)
  {
    var line := Cut(cmd);
    buf := new Byte[MAX_CMD_SIZE](k => if 0 <= k < |line| then line[k] else 0);
  }

  /** Every command line with a token in its first 255 characters reaches the
      program.  For one without, `load` stops at the missing file name. */
  method BuildStack(cmd: seq<Byte>, stack: array<Byte>) returns (ok: bool, esp: int)
    requires 0 !in cmd && stack.Length == PGSIZE && stack[..] == Zeros(PGSIZE)
    modifies stack
    ensures ok <==> Tokens(BLANK, Cut(cmd), 0) != []
    ensures ok ==> |Tokens(BLANK, Cut(cmd), 0)| <= 128 && ArgumentsAt(stack[..], esp, Tokens(BLANK, Cut(cmd), 0))
    ensures !ok ==> stack[..] == old(stack[..])
  {
    hide Image, Topped, ArgumentsAt, Rest, Cut, Zeros, Skip, End;
    var name := CopyLine(cmd);
    var token, _ := Strtok(BLANK, name, 0, Cut(cmd));
    ok, esp := token.Some?, 0;
    if !ok {
      return;
    }
    var buf := CopyLine(cmd);
    esp := PushArgument(buf, Cut(cmd), stack);
    Assembled(stack[..], Cut(cmd));
  }

  lemma Assembled(stack: seq<Byte>, line: seq<Byte>)
    requires 0 !in line && Fits(Tokens(BLANK, line, 0)) && Topped(stack, Image(Tokens(BLANK, line, 0)))
    ensures ArgumentsAt(stack, PHYS_BASE - |Image(Tokens(BLANK, line, 0))| - 4, Tokens(BLANK, line, 0))
  {
    hide Tokens, Image, WordAt, StringAt, AddrOf, Nth;
    var ts := Tokens(BLANK, line, 0);
    TokensHaveNoNul(BLANK, line, 0);
    HeadWords(stack, ts);
    VectorWords(stack, ts);
    forall k | 0 <= k < |ts| ensures STACK_BASE <= AddrOf(ts, k) && StringAt(stack, AddrOf(ts, k) - STACK_BASE, ts[k]) {
      StringsThere(stack, ts, k);
    }
  }
}
