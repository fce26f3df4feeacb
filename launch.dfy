/** How `main` hands the child's arguments to the operating system: on Windows
    as one command line assembled in a stack buffer, on POSIX as a
    null-terminated vector of argument pointers for `execv`. */
module Launch {
  import opened Process

  const Nul: char := '\0'

  /** Every entry of `argv` is a C string: it holds no NUL byte. */
  predicate CStrings(argv: seq<string>)
  {
    forall i :: 0 <= i < |argv| ==> Nul !in argv[i]
  }

  // ---------------------------------------------------------------------
  // Windows: one command line

  /** One argument as the command line carries it: a quote, the argument's
      bytes verbatim (embedded quotes are not escaped), a quote and a space. */
  function QuoteArg(a: string): (r: string)
  {
    ['"'] + a + ['"', ' ']
  }

  /** The wrapped arguments, concatenated in order. */
  function Quoted(args: seq<string>): (r: string)
  {
    if args == [] then [] else Quoted(args[..|args| - 1]) + QuoteArg(args[|args| - 1])
  }

  /** The sum over the arguments of their length plus 3: the buffer size
      without the terminating NUL. */
  function QuotedLen(args: seq<string>): (n: nat)
  {
    if args == [] then 0 else QuotedLen(args[..|args| - 1]) + |args[|args| - 1]| + 3
  }

  /** The command line given to `CreateProcessA`: the executable path and the
      child's arguments, each wrapped. */
  function CommandLine(argv: seq<string>): (line: string)
    requires |argv| >= MinArgc
  {
    Quoted(argv[2..])
  }

  /** The size computation and the content agree: each argument adds exactly
      its length plus 3 bytes. */
  lemma {:induction false} QuotedLength(args: seq<string>)
    ensures |Quoted(args)| == QuotedLen(args)
  {
    if args != [] {
      QuotedLength(args[..|args| - 1]);
    }
  }

  /** Wrapping distributes over concatenation of argument lists. */
  lemma {:induction false} QuotedAppend(a: seq<string>, b: seq<string>)
    ensures Quoted(a + b) == Quoted(a) + Quoted(b)
    decreases |b|
  {
    if b == [] {
      assert a + b == a;
    } else {
      var b' := b[..|b| - 1];
      assert (a + b)[..|a + b| - 1] == a + b';
      QuotedAppend(a, b');
    }
  }

  lemma {:induction false} QuotedLenPrefix(args: seq<string>, k: nat)
    requires k <= |args|
    ensures QuotedLen(args[..k]) <= QuotedLen(args)
    decreases |args|
  {
    if k < |args| {
      var init := args[..|args| - 1];
      assert init[..k] == args[..k];
      QuotedLenPrefix(init, k);
    } else {
      assert args[..k] == args;
    }
  }

  /** Argument `k` appears verbatim, wrapped, at the offset given by the sizes
      of the arguments before it: nothing is escaped, dropped or reordered. */
  lemma ArgumentInPlace(args: seq<string>, k: nat)
    requires k < |args|
    ensures QuotedLen(args[..k]) + |args[k]| + 3 <= |Quoted(args)|
    ensures Quoted(args)[QuotedLen(args[..k])..QuotedLen(args[..k]) + |args[k]| + 3] == QuoteArg(args[k])
  {
    var before, rest := args[..k], args[k + 1..];
    assert args == before + [args[k]] + rest;
    QuotedAppend(before + [args[k]], rest);
    QuotedAppend(before, [args[k]]);
    assert Quoted([args[k]]) == QuoteArg(args[k]) by {
      assert [args[k]][..0] == [];
    }
    QuotedLength(before);
  }

  /** The first token of the command line is the executable path. */
  lemma CommandLineStartsWithPath(argv: seq<string>)
    requires |argv| >= MinArgc
    ensures |argv[2]| + 3 <= |CommandLine(argv)|
    ensures CommandLine(argv)[..|argv[2]| + 3] == QuoteArg(argv[2])
  {
    ArgumentInPlace(argv[2..], 0);
    assert argv[2..][..0] == [];
  }

  /** The command line holds no NUL, so the C string `CreateProcessA` reads
      from the buffer is all of it. */
  lemma {:induction false} QuotedHasNoNul(args: seq<string>)
    requires CStrings(args)
    ensures Nul !in Quoted(args)
  {
    if args != [] {
      QuotedHasNoNul(args[..|args| - 1]);
    }
  }

  /** `strcpy(buf + at, s)`: the bytes of `s`, then a NUL. `s` is a C
      string, so none of its bytes is a NUL. */
  method StrCpy(buf: array<char>, at: nat, s: string)
    requires Nul !in s
    requires at + |s| < buf.Length
    modifies buf
    ensures buf[at..at + |s|] == s && buf[at + |s|] == Nul
    ensures forall k :: 0 <= k < buf.Length && !(at <= k <= at + |s|) ==> buf[k] == old(buf[k])
  {
    var j := 0;
    while j < |s|
      invariant 0 <= j <= |s|
      invariant buf[at..at + j] == s[..j]
      invariant forall k :: 0 <= k < buf.Length && !(at <= k < at + j) ==> buf[k] == old(buf[k])
    {
      buf[at + j] := s[j];
      j := j + 1;
    }
    buf[at + |s|] := Nul;
  }

  /** `strlen(buf + at)`: the distance to the first NUL at or after `at`. */
  method StrLen(buf: array<char>, at: nat) returns (n: nat)
    requires exists k :: at <= k < buf.Length && buf[k] == Nul
    ensures at + n < buf.Length && buf[at + n] == Nul
    ensures forall k :: at <= k < at + n ==> buf[k] != Nul
  {
    n := 0;
    while buf[at + n] != Nul
      invariant at + n < buf.Length
      invariant forall k :: at <= k < at + n ==> buf[k] != Nul
      invariant exists k :: at + n <= k < buf.Length && buf[k] == Nul
      decreases buf.Length - (at + n)
    {
      n := n + 1;
    }
  }

  /** One pass of the assembly loop: a quote at `write`, the argument copied
      after it, the write index moved to the copy's NUL, then a quote, a
      space and a NUL there. Returns the advanced write index. */
  method AppendQuoted(line: array<char>, write: nat, arg: string) returns (next: nat)
    requires Nul !in arg
    requires write + |arg| + 3 < line.Length
    modifies line
    ensures next == write + |arg| + 3
    ensures line[..next] == old(line[..write]) + QuoteArg(arg)
    ensures line[next] == Nul
    ensures forall k :: next < k < line.Length ==> line[k] == old(line[k])
  {
    line[write] := '"';
    StrCpy(line, write + 1, arg);
    var n := StrLen(line, write);
    // the copy holds no NUL and is followed by one, so strlen stops right there
    assert line[write + |arg| + 1] == Nul;
    assert forall k :: write < k <= write + |arg| ==> line[k] == arg[k - write - 1];
    next := write + n;
    line[next] := '"';
    line[next + 1] := ' ';
    line[next + 2] := Nul;
    next := next + 2;
    assert line[..next] == old(line[..write]) + QuoteArg(arg);
  }

  /** The Windows command-line assembly: size the buffer from the argument
      lengths, then fill it through a moving write index, one wrapped
      argument at a time. Every store is inside the buffer (the array
      accesses are checked), and the final NUL lands at its last index. */
  method AssembleCommandLine(argv: seq<string>) returns (line: array<char>)
    requires |argv| >= MinArgc && CStrings(argv)
    ensures line.Length == QuotedLen(argv[2..]) + 1
    ensures line[..] == CommandLine(argv) + [Nul]
  {
    var totalLen := 0;
    for i := 2 to |argv|
      invariant totalLen == QuotedLen(argv[2..i])
    {
      assert argv[2..i + 1][..i - 2] == argv[2..i];
      totalLen := totalLen + |argv[i]| + 3;
    }
    assert argv[2..|argv|] == argv[2..];
    totalLen := totalLen + 1;

    line := new char[totalLen];
    var write := 0;
    for i := 2 to |argv|
      invariant write == QuotedLen(argv[2..i]) < line.Length
      invariant line[..write] == Quoted(argv[2..i])
      invariant i > 2 ==> line[write] == Nul
    {
      assert argv[2..i + 1][..i - 2] == argv[2..i];
      assert argv[2..][..i + 1 - 2] == argv[2..i + 1];
      QuotedLenPrefix(argv[2..], i + 1 - 2);
      write := AppendQuoted(line, write, argv[i]);
    }
    assert argv[2..|argv|] == argv[2..];
    assert line[..] == line[..write] + [line[write]];
  }

  // ---------------------------------------------------------------------
  // POSIX: the argument vector for execv

  /** One pointer slot of `child_argv`: never written (the stack buffer's
      garbage), the terminating null pointer, or a pointer to an argument. */
  datatype Slot = Unset | Null | Arg(s: string)

  /** The layout `main` gives `child_argv`: the path at 0, argument `j + 2` of
      the supervisor at `j`, the null terminator at `argc - 2`. */
  predicate ChildArgvLayout(argv: seq<string>, slots: seq<Slot>)
  {
    |argv| >= MinArgc && |slots| == |argv|
    && slots[0] == Arg(argv[2])
    && (forall j :: 1 <= j <= |argv| - 3 ==> slots[j] == Arg(argv[j + 2]))
    && slots[|argv| - 2] == Null
  }

  /** What `execv` reads from a vector: the arguments up to the first null
      pointer; None if it meets an unwritten slot or runs off the end first. */
  function ExecVector(slots: seq<Slot>): (args: Option<seq<string>>)
  {
    if slots == [] then None
    else match slots[0]
      case Null => Some([])
      case Unset => None
      case Arg(s) =>
        match ExecVector(slots[1..])
        case None => None
        case Some(rest) => Some([s] + rest)
  }

  lemma {:induction false} ExecVectorUpToNull(slots: seq<Slot>, args: seq<string>)
    requires |args| < |slots| && slots[|args|] == Null
    requires forall j :: 0 <= j < |args| ==> slots[j] == Arg(args[j])
    ensures ExecVector(slots) == Some(args)
  {
    if args != [] {
      ExecVectorUpToNull(slots[1..], args[1..]);
      assert [args[0]] + args[1..] == args;
    }
  }

  /** The vector `main` builds makes `execv` run the path with exactly the
      supervisor's arguments from index 2 on, the path itself as argument 0. */
  lemma ChildArgvIsExecVector(argv: seq<string>, slots: seq<Slot>)
    requires ChildArgvLayout(argv, slots)
    ensures ExecVector(slots) == Some(argv[2..])
    ensures ExecVector(slots).value[0] == argv[2]
  {
    ExecVectorUpToNull(slots, argv[2..]);
  }

  /** Builds `child_argv` in a fresh vector of `argc` slots by indexed
      stores; every store index is below `argc`, and the last slot is never
      written. */
  method BuildChildArgv(argv: seq<string>) returns (childArgv: array<Slot>)
    requires |argv| >= MinArgc
    ensures ChildArgvLayout(argv, childArgv[..])
    ensures childArgv[|argv| - 1] == Unset
  {
    childArgv := new Slot[|argv|](_ => Unset);
    childArgv[0] := Arg(argv[2]);
    for i := 3 to |argv|
      invariant childArgv[0] == Arg(argv[2])
      invariant forall j :: 1 <= j <= i - 3 ==> childArgv[j] == Arg(argv[j + 2])
      invariant forall j :: i - 2 <= j < |argv| ==> childArgv[j] == Unset
    {
      childArgv[i - 3 + 1] := Arg(argv[i]);
    }
    childArgv[|argv| - 2] := Null;
  }
}
