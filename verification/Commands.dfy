/** The command line of execute and the argument that getargs hands to the new process. */
module Commands {
  import opened Bytes
  import opened Processes

  const BUFFASIZE := 128
  const PERCENT: byte := 0x25

  /** Length of the program name: up to a space, a NUL or 128 bytes. */
  function NameLength(cmd: seq<byte>, i: nat := 0): (n: nat)
    requires |cmd| == BUFFASIZE && i <= BUFFASIZE
    ensures i <= n <= BUFFASIZE && (n < BUFFASIZE ==> cmd[n] == SPACE || cmd[n] == 0)
    ensures forall k :: i <= k < n ==> cmd[k] != SPACE && cmd[k] != 0
    decreases |cmd| - i
  {
    if i == BUFFASIZE || cmd[i] == SPACE || cmd[i] == 0 then i else NameLength(cmd, i + 1)
  }

  /** The name as read_dentry_by_name is given it. */
  function ProgramName(cmd: seq<byte>): (r: seq<byte>)
    requires |cmd| == BUFFASIZE
    ensures Readable(r, 31) && r != []
  {
    var n := NameLength(cmd);
    if n == BUFFASIZE then cmd else
    assert (cmd[..n] + [0])[n] == 0;
    cmd[..n] + [0]
  }

  /** Where the argument ends: the first NUL after the separator, or 128. */
  function ArgEnd(cmd: seq<byte>, i: nat): (e: nat)
    requires |cmd| == BUFFASIZE
    ensures i <= BUFFASIZE ==> i <= e <= BUFFASIZE && (e < BUFFASIZE ==> cmd[e] == 0)
    ensures i > BUFFASIZE ==> e == i
    ensures forall k :: i <= k < e ==> cmd[k] != 0
    decreases |cmd| - i
  {
    if i >= BUFFASIZE || cmd[i] == 0 then i else ArgEnd(cmd, i + 1)
  }

  /** The args field of the new PCB: the bytes after the name's end marker, zero padded. */
  function Arguments(cmd: seq<byte>): (r: seq<byte>)
    requires |cmd| == BUFFASIZE
    ensures |r| == ARG_SIZE
  {
    var from := NameLength(cmd) + 1;
    var end := ArgEnd(cmd, from);
    seq(ARG_SIZE, k requires 0 <= k < ARG_SIZE => if from + k < end && from + k < BUFFASIZE then cmd[from + k] else 0)
  }

  /** The loop that copies the program name; `cmd` is the 128 bytes at the command pointer. */
  method ParseName(cmd: seq<byte>) returns (prgname: seq<byte>, namelength: nat)
    requires |cmd| == BUFFASIZE
    ensures prgname == ProgramName(cmd) && namelength == NameLength(cmd)
  {
    prgname, namelength := [], 0;
    while namelength < BUFFASIZE && cmd[namelength] != SPACE && cmd[namelength] != 0
      invariant namelength <= BUFFASIZE && prgname == cmd[..namelength]
      invariant NameLength(cmd) == NameLength(cmd, namelength)
    {
      prgname := prgname + [cmd[namelength]];
      namelength := namelength + 1;
    }
    if namelength < BUFFASIZE {
      prgname := prgname + [0];
    }
  }

  /** The argument with its zero padding, as far as the bytes before `i` go. */
  predicate Padded(cmd: seq<byte>, from: nat, i: nat, args: seq<byte>)
    requires |cmd| == BUFFASIZE && |args| == ARG_SIZE
  {
    forall k {:trigger args[k]} :: 0 <= k < ARG_SIZE ==>
      args[k] == if from + k < i && from + k < BUFFASIZE then cmd[from + k] else 0
  }

  /** The loop that stores the argument in the PCB, whose args field starts as zeros. */
  method ParseArgs(cmd: seq<byte>, namelength: nat) returns (args: seq<byte>)
    requires |cmd| == BUFFASIZE && namelength == NameLength(cmd)
    ensures args == Arguments(cmd)
  {
    args := Zeros(ARG_SIZE);
    var i := namelength + 1;
    while i < BUFFASIZE && cmd[i] != 0
      invariant namelength < i && |args| == ARG_SIZE && Padded(cmd, namelength + 1, i, args)
      invariant ArgEnd(cmd, namelength + 1) == ArgEnd(cmd, i)
      decreases BUFFASIZE - i
    {
      args := args[i - namelength - 1 := cmd[i]];
      i := i + 1;
    }
  }

  /** getargs: the bytes stored for a request of up to 128, or None for -1. */
  function GetArgs(args: seq<byte>, nbytes: nat): (r: Option<seq<byte>>)
    requires |args| == ARG_SIZE && nbytes <= ARG_SIZE
  {
    if nbytes == 0 || args[0] == 0 || args[0] == PERCENT then None else Some(args[..nbytes])
  }

  function Zeros(n: nat): seq<byte> { seq(n, _ => 0) }

  /** "name argument" is split into the name and exactly the argument, zero padded: the pieces put
      together again are the command, and getargs returns the argument. */
  lemma CommandRoundTrip(name: seq<byte>, arg: seq<byte>, cmd: seq<byte>)
    requires name != [] && NoNul(name, |name|) && SPACE !in name
    requires arg != [] && NoNul(arg, |arg|) && arg[0] != PERCENT
    requires |cmd| == BUFFASIZE && name + [SPACE] + arg + [0] <= cmd
    ensures ProgramName(cmd) == name + [0]
    ensures Arguments(cmd) == arg + Zeros(ARG_SIZE - |arg|)
    ensures forall n: nat :: 1 <= n <= ARG_SIZE ==>
              GetArgs(Arguments(cmd), n) == Some((arg + Zeros(ARG_SIZE - |arg|))[..n])
  {
    var text := name + [SPACE] + arg + [0];
    assert forall k :: 0 <= k < |text| ==> cmd[k] == text[k];
    assert forall k :: 0 <= k < |name| ==> cmd[k] == name[k] && name[k] in name;
    assert cmd[|name|] == SPACE;
    assert NameLength(cmd) == |name|;
    assert cmd[..|name|] == name;
    var from := |name| + 1;
    assert forall k :: 0 <= k < |arg| ==> cmd[from + k] == arg[k];
    assert forall k {:trigger cmd[k]} :: from <= k < from + |arg| ==> cmd[k] == arg[k - from];
    assert cmd[from + |arg|] == 0;
    assert ArgEnd(cmd, from) == from + |arg|;
    assert Arguments(cmd) == arg + Zeros(ARG_SIZE - |arg|);
  }

  /** getargs fails exactly for an empty request, or when the stored argument is empty or starts with a
      percent sign; otherwise it hands out the first bytes. */
  lemma GetArgsResults(args: seq<byte>, n: nat)
    requires |args| == ARG_SIZE && n <= ARG_SIZE
    ensures GetArgs(args, n).None? <==> n == 0 || args[0] == 0 || args[0] == 0x25
    ensures GetArgs(args, n).Some? ==> |GetArgs(args, n).value| == n && GetArgs(args, n).value <= args
  {
  }

  /** A command without an argument does not leave args empty: the byte after the terminating NUL
      decides. getargs fails in the new process exactly when that byte is NUL or '%'. */
  lemma NoArgument(name: seq<byte>, cmd: seq<byte>, n: nat)
    requires name != [] && NoNul(name, |name|) && SPACE !in name && |name| + 1 < BUFFASIZE && 1 <= n <= ARG_SIZE
    requires |cmd| == BUFFASIZE && name + [0] <= cmd
    ensures ProgramName(cmd) == name + [0]
    ensures GetArgs(Arguments(cmd), n) == None <==> cmd[|name| + 1] == 0 || cmd[|name| + 1] == PERCENT
  {
    var text := name + [0];
    assert forall k :: 0 <= k < |text| ==> cmd[k] == text[k];
    assert forall k :: 0 <= k < |name| ==> cmd[k] == name[k] && name[k] in name;
    assert cmd[|name|] == 0;
    assert NameLength(cmd) == |name|;
    assert cmd[..|name|] == name;
  }
}
