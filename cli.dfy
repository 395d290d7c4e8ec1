/** `entry_point` of the command line: when the first argument is neither a
    known subcommand nor a known option, the default subcommand is put in
    front of the arguments, so that `showyourwork --some-flag` runs as
    `showyourwork build --some-flag`. The lists of subcommands and options
    and the default are given, as they are defined elsewhere. */
module Cli {

  /** The interpreter's `sys` module, reduced to the argument list the
      entry point edits in place. */
  class Sys {
    var argv: seq<string>

    constructor (argv: seq<string>)
      ensures this.argv == argv
    {
      this.argv := argv;
    }
  }

  /** `list.insert(i, x)` for an index inside the list or just past it. */
  function Insert(xs: seq<string>, i: nat, x: string): (r: seq<string>)
    requires i <= |xs|
    ensures |r| == |xs| + 1 && r[i] == x
    ensures r[..i] == xs[..i] && r[i + 1..] == xs[i..]
  {
    xs[..i] + [x] + xs[i..]
  }

  /** The guard of the entry point: no argument after the program name, or
      a first argument that is no subcommand and no option. */
  predicate NeedsDefault(argv: seq<string>, subcommands: seq<string>, options: seq<string>)
    requires |argv| >= 1
  {
    |argv| == 1 || argv[1] !in subcommands + options
  }

  /** The argument list after the entry point's rewrite. */
  function WithDefault(argv: seq<string>, subcommands: seq<string>, options: seq<string>, default: string)
    : (r: seq<string>)
    requires |argv| >= 1
    ensures |r| == if NeedsDefault(argv, subcommands, options) then |argv| + 1 else |argv|
    ensures r[0] == argv[0]
    ensures NeedsDefault(argv, subcommands, options) ==> r[1] == default && r[2..] == argv[1..]
    ensures !NeedsDefault(argv, subcommands, options) ==> r == argv
  {
    if NeedsDefault(argv, subcommands, options) then Insert(argv, 1, default) else argv
  }

  /** `entry_point()` up to the call of the command group: the guard, then
      the insertion at index 1. With no program name at all, the guard's
      `sys.argv[1]` raises and nothing changes; `ok` reports which. */
  method EntryPoint(sys: Sys, subcommands: seq<string>, options: seq<string>, default: string)
    returns (ok: bool)
    modifies sys
    ensures ok <==> |old(sys.argv)| >= 1
    ensures ok ==> sys.argv == WithDefault(old(sys.argv), subcommands, options, default)
    ensures !ok ==> sys.argv == old(sys.argv)
  {
    if |sys.argv| == 1 {
      sys.argv := Insert(sys.argv, 1, default);
      return true;
    }
    if |sys.argv| == 0 {
      return false;
    }
    if !(sys.argv[1] in subcommands + options) {
      sys.argv := Insert(sys.argv, 1, default);
    }
    return true;
  }

  /** After the rewrite the first argument is a subcommand or an option, or
      the default; the list grows by at most one. */
  lemma RewriteDispatches(argv: seq<string>, subcommands: seq<string>, options: seq<string>, default: string)
    requires |argv| >= 1
    ensures var r := WithDefault(argv, subcommands, options, default);
      && |r| >= 2 && (r[1] == default || r[1] in subcommands + options)
      && |argv| <= |r| <= |argv| + 1
  {
  }

  /** Taking the inserted argument out again gives back the original list:
      every argument keeps its place relative to the others. */
  lemma RewriteUndone(argv: seq<string>, subcommands: seq<string>, options: seq<string>, default: string)
    requires |argv| >= 1 && NeedsDefault(argv, subcommands, options)
    ensures var r := WithDefault(argv, subcommands, options, default);
      r[..1] + r[2..] == argv
  {
    var r := WithDefault(argv, subcommands, options, default);
    assert r[..1] == argv[..1];
    assert argv == argv[..1] + argv[1..];
  }

  /** When the default is itself a subcommand, a second pass changes nothing. */
  lemma RewriteIdempotent(argv: seq<string>, subcommands: seq<string>, options: seq<string>, default: string)
    requires |argv| >= 1 && default in subcommands
    ensures var r := WithDefault(argv, subcommands, options, default);
      WithDefault(r, subcommands, options, default) == r
  {
  }
}
