/** The two argv readers of wl.js: `cmdinput` (the positional input file)
    and `cmdswitch` (a `--name` switch, optionally with the argument after
    it). `argv` is the whole of `process.argv`: the node executable and the
    script path occupy indices 0 and 1. */
module CommandLine {
  import opened Seqs

  /** What `cmdswitch` hands back: `false`, `true`, the argument string,
      or `undefined` when the switch is the last word of argv. */
  datatype SwitchValue = Absent | Present | Value(arg: string) | Undefined

  /** JavaScript truthiness of a `cmdswitch` result. */
  predicate Truthy(v: SwitchValue)
    ensures Truthy(v) ==> v.Present? || v.Value?
  {
    match v
    case Absent => false
    case Present => true
    case Value(arg) => arg != ""
    case Undefined => false
  }

  const DefaultInput: string := "style.less"

  /** `cmdinput`: the third word of argv unless it looks like a switch. */
  function CmdInput(argv: seq<string>): (r: string)
    ensures |argv| >= 3 && !StartsWith(argv[2], "--") ==> r == argv[2]
    ensures |argv| < 3 || StartsWith(argv[2], "--") ==> r == DefaultInput
    ensures !StartsWith(r, "--")
  {
    if |argv| >= 3 && !StartsWith(argv[2], "--") then argv[2]
    else
      assert DefaultInput[..2] != "--" by { assert DefaultInput[0] == 's'; }
      DefaultInput
  }

  function Min(a: int, b: int): int {
    if a < b then a else b
  }

  /** `cmdswitch(name, getValue)`: looks up the first `--name` in argv and
      either reports its presence or returns the word after it, using the
      clamping behaviour of `Array.prototype.slice`. */
  function Switch(argv: seq<string>, name: string, getValue: bool): (r: SwitchValue)
    ensures r == Absent <==> "--" + name !in argv
    ensures r == Present <==> "--" + name in argv && !getValue
    ensures r.Value? ==> getValue && IndexOf(argv, "--" + name) + 1 < |argv|
                         && r.arg == argv[IndexOf(argv, "--" + name) + 1]
    ensures r == Undefined <==> getValue && "--" + name in argv && "--" + name !in argv[..|argv| - 1]
  {
    var flag := "--" + name;
    var index := IndexOf(argv, flag);
    if index > -1 then
      var s := argv[index .. Min(if getValue then index + 2 else index + 1, |argv|)];
      if getValue then (if |s| > 1 then Value(s[1]) else Undefined) else Present
    else
      Absent
  }

  /** With `getValue`, the switch yields the word right after its FIRST
      occurrence, whatever later occurrences say. */
  lemma SwitchTakesWordAfterFirst(argv: seq<string>, name: string, i: nat)
    requires i + 1 < |argv| && argv[i] == "--" + name && "--" + name !in argv[..i]
    ensures Switch(argv, name, true) == Value(argv[i + 1])
  {
  }

  /** A switch given last, with nothing after it, reads as `undefined`, which
      is falsy; a bare switch read without `getValue` is `true`. */
  lemma SwitchTruthiness(argv: seq<string>, name: string, getValue: bool)
    ensures Truthy(Switch(argv, name, getValue)) <==>
              "--" + name in argv &&
              (!getValue ||
               (IndexOf(argv, "--" + name) + 1 < |argv| && argv[IndexOf(argv, "--" + name) + 1] != ""))
  {
  }

  /** A switch read with `getValue` whose first occurrence is last, or is
      followed by an empty word, is falsy. */
  lemma SwitchWithoutWord(argv: seq<string>, name: string, i: nat)
    requires i < |argv| && argv[i] == "--" + name && "--" + name !in argv[..i]
    requires i == |argv| - 1 || argv[i + 1] == ""
    ensures !Truthy(Switch(argv, name, true))
  {
    IndexOfFirst(argv, "--" + name, i);
    SwitchTruthiness(argv, name, true);
  }

  /** A switch written before the input file hides it: the input falls back
      to the default even though a file name `argv[k]` follows. */
  lemma SwitchBeforeInputHidesIt(argv: seq<string>, k: nat)
    requires |argv| >= 3 && StartsWith(argv[2], "--") && 2 < k < |argv|
    requires !StartsWith(argv[k], "--") && argv[k] != DefaultInput
    ensures CmdInput(argv) == DefaultInput && CmdInput(argv) != argv[k]
  {
  }
}
