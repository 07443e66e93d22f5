/** The options wl.js reads at start-up (lines 134-151), gathered into one
    immutable configuration. Path resolution against the working directory
    is left abstract: names are kept as given, and the default output name
    is derived from the final component of the input path. */
module Settings {
  import opened Results
  import opened Seqs
  import opened CommandLine
  import OutputName

  /** Where the CSS is written: the `--output` argument, or a name derived
      from the input's, in the input's directory. */
  datatype OutputTarget = Given(path: string) | BesideInput(name: string)

  datatype Config = Config(
    applyPrefixes: bool,                 // no --no-prefix
    browsers: Option<seq<string>>,       // --prefix-browsers, split at commas
    compact: bool,                       // no --no-compact
    once: bool,                          // --once
    input: string,                       // cmdinput()
    output: OutputTarget)

  /** The characters of the class `\s` of JavaScript regular expressions. */
  const Blanks: set<char> := {
    '\t', '\n', '\U{000B}', '\U{000C}', '\r', ' ', '\U{00A0}', '\U{1680}',
    '\U{2000}', '\U{2001}', '\U{2002}', '\U{2003}', '\U{2004}', '\U{2005}',
    '\U{2006}', '\U{2007}', '\U{2008}', '\U{2009}', '\U{200A}',
    '\U{2028}', '\U{2029}', '\U{202F}', '\U{205F}', '\U{3000}', '\U{FEFF}'}

  predicate IsSpace(c: char) {
    c in Blanks
  }

  predicate AllBlank(s: string) {
    forall i :: 0 <= i < |s| ==> IsSpace(s[i])
  }

  function TrimStart(s: string): (r: string)
    ensures EndsWith(s, r)
    ensures r == [] || !IsSpace(r[0])
    ensures AllBlank(s[..|s| - |r|])
  {
    if s != [] && IsSpace(s[0]) then TrimStart(s[1..]) else s
  }

  function TrimEnd(s: string): (r: string)
    ensures StartsWith(s, r)
    ensures r == [] || !IsSpace(r[|r| - 1])
    ensures AllBlank(s[|r|..])
  {
    if s != [] && IsSpace(s[|s| - 1]) then TrimEnd(s[..|s| - 1]) else s
  }

  /** The pieces of `s` between its commas. */
  function SplitAtCommas(s: string): (r: seq<string>)
    ensures |r| >= 1
    ensures forall i :: 0 <= i < |r| ==> ',' !in r[i]
    decreases |s|
  {
    var k := IndexOf(s, ',');
    if k == -1 then [s] else [s[..k]] + SplitAtCommas(s[k + 1..])
  }

  /** `pieces.join(",")`. */
  function JoinWithCommas(pieces: seq<string>): string
    requires |pieces| >= 1
  {
    if |pieces| == 1 then pieces[0] else pieces[0] + "," + JoinWithCommas(pieces[1..])
  }

  /** Splitting at commas loses nothing: joining the pieces gives `s` back. */
  lemma {:induction false} SplitJoinRoundTrip(s: string)
    ensures JoinWithCommas(SplitAtCommas(s)) == s
    decreases |s|
  {
    var k := IndexOf(s, ',');
    if k != -1 {
      var rest := s[k + 1..];
      var tail := SplitAtCommas(rest);
      assert SplitAtCommas(s) == [s[..k]] + tail;
      SplitJoinRoundTrip(rest);
      JoinFirst(s[..k], tail);
      SplitAt(s, k);
    }
  }

  lemma JoinFirst(first: string, rest: seq<string>)
    requires |rest| >= 1
    ensures JoinWithCommas([first] + rest) == first + "," + JoinWithCommas(rest)
  {
    assert ([first] + rest)[1..] == rest;
  }

  /** One piece of the split: blanks are dropped at an end that touches a
      comma, that is at the start of every piece but the first and at the
      end of every piece but the last. What is dropped is blanks only, and
      nothing is dropped at the outer ends of the whole string. */
  function TrimPiece(p: string, first: bool, last: bool): (r: string)
    ensures ',' !in p ==> ',' !in r
    ensures !first ==> r == [] || !IsSpace(r[0])
    ensures !last ==> r == [] || !IsSpace(r[|r| - 1])
    ensures exists lo :: (0 <= lo <= |p| - |r| && r == p[lo..lo + |r|]
                          && (first ==> lo == 0) && (last ==> lo + |r| == |p|)
                          && AllBlank(p[..lo]) && AllBlank(p[lo + |r|..]))
  {
    var q := if first then p else TrimStart(p);
    var r := if last then q else TrimEnd(q);
    SliceBetweenBlanks(p, q, r);
    r
  }

  /** `r`, a prefix of `q` followed by blanks only, itself a suffix of `p`
      preceded by blanks only, is the slice of `p` between two runs of
      blanks. */
  lemma SliceBetweenBlanks(p: string, q: string, r: string)
    requires EndsWith(p, q) && AllBlank(p[..|p| - |q|])
    requires StartsWith(q, r) && AllBlank(q[|r|..])
    ensures r == p[|p| - |q|..|p| - |q| + |r|]
    ensures AllBlank(p[..|p| - |q|]) && AllBlank(p[|p| - |q| + |r|..])
    ensures ',' !in p ==> ',' !in r
  {
    var lo := |p| - |q|;
    assert p[lo..] == q;
    assert p[lo + |r|..] == q[|r|..];
    assert p[lo..lo + |r|] == q[..|r|];
  }

  /** `s.split` on the regular expression "blanks, comma, blanks": it
      swallows the blanks on both sides of each comma; the blanks at the
      very start and end of `s` stay. */
  function SplitBrowsers(s: string): (r: seq<string>)
    ensures |r| == |SplitAtCommas(s)|
    ensures forall i :: 0 <= i < |r| ==> r[i] == TrimPiece(SplitAtCommas(s)[i], i == 0, i == |r| - 1)
  {
    var pieces := SplitAtCommas(s);
    seq(|pieces|, i requires 0 <= i < |pieces| => TrimPiece(pieces[i], i == 0, i == |pieces| - 1))
  }

  /** No browser entry holds a comma, and none keeps a blank next to a
      comma it was split at. */
  lemma BrowserEntry(s: string, i: nat)
    requires i < |SplitBrowsers(s)|
    ensures var e := SplitBrowsers(s)[i];
      && ',' !in e
      && (i > 0 ==> e == [] || !IsSpace(e[0]))
      && (i < |SplitBrowsers(s)| - 1 ==> e == [] || !IsSpace(e[|e| - 1]))
  {
    var pieces := SplitAtCommas(s);
    assert ',' !in pieces[i];
    assert SplitBrowsers(s)[i] == TrimPiece(pieces[i], i == 0, i == |pieces| - 1);
  }

  /** The final component of a path: what follows its last '/'. */
  function FinalComponent(path: string): (r: string)
    ensures '/' !in r && EndsWith(path, r)
    ensures r == path || path[|path| - |r| - 1] == '/'
  {
    var slash := LastIndexOf(path, '/');
    assert slash == -1 || path[slash] == '/';
    assert path[|path| - |path[slash + 1..]|..] == path[slash + 1..];
    path[slash + 1..]
  }

  /** The start-up configuration read from argv. */
  function Configure(argv: seq<string>): (c: Config)
    ensures c.applyPrefixes <==> "--no-prefix" !in argv
    ensures c.compact <==> "--no-compact" !in argv
    ensures c.once <==> "--once" in argv
    ensures c.input == CmdInput(argv)
    ensures c.browsers.Some? <==> Truthy(Switch(argv, "prefix-browsers", true))
    ensures c.browsers.Some? ==> c.browsers.value == SplitBrowsers(Switch(argv, "prefix-browsers", true).arg)
    ensures c.output.Given? <==> Truthy(Switch(argv, "output", true))
    ensures c.output.Given? ==> c.output.path == Switch(argv, "output", true).arg
    ensures c.output.BesideInput? ==> c.output.name == OutputName.DefaultOutputName(FinalComponent(c.input))
  {
    assert "--" + "no-prefix" == "--no-prefix" && "--" + "no-compact" == "--no-compact";
    assert "--" + "once" == "--once";
    var targetBrowsers := Switch(argv, "prefix-browsers", true);
    var input := CmdInput(argv);
    var output := Switch(argv, "output", true);
    Config(
      applyPrefixes := !Truthy(Switch(argv, "no-prefix", false)),
      browsers := if Truthy(targetBrowsers) then Some(SplitBrowsers(targetBrowsers.arg)) else None,
      compact := !Truthy(Switch(argv, "no-compact", false)),
      once := Truthy(Switch(argv, "once", false)),
      input := input,
      output := if Truthy(output) then Given(output.arg)
                else BesideInput(OutputName.DefaultOutputName(FinalComponent(input))))
  }

  /** An `--output` whose first occurrence has nothing after it, or an empty
      argument, falls back to the derived name. */
  lemma OutputNeedsArgument(argv: seq<string>, i: nat)
    requires i < |argv| && argv[i] == "--output" && "--output" !in argv[..i]
    requires i == |argv| - 1 || argv[i + 1] == ""
    ensures Configure(argv).output.BesideInput?
  {
    assert "--" + "output" == "--output";
    SwitchWithoutWord(argv, "output", i);
  }
}
