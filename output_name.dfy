/** The default output name of wl.js (lines 141-148), on the final path
    component: `path.basename(input, ".less") + ".css"`, then a trailing
    ".css.css" becomes ".min.css". The directory part is carried over
    unchanged by `path.join(path.dirname(input), ...)` and is not modelled. */
module OutputName {
  import opened Seqs

  const LessExt: string := ".less"

  /** `path.basename(p, ext)` applied to the final component `name`: a
      trailing `ext` is dropped (case-sensitively) unless it is the whole
      name. */
  function BaseName(name: string, ext: string): (r: string)
    ensures EndsWith(name, ext) && name != ext ==> r + ext == name
    ensures !(EndsWith(name, ext) && name != ext) ==> r == name
  {
    if EndsWith(name, ext) && name != ext then name[..|name| - |ext|] else name
  }

  /** `s.replace(/\.css\.css$/, ".min.css")`: case-sensitive, at the end only. */
  function ReplaceDoubleCss(s: string): (r: string)
    ensures |r| == |s|
    ensures EndsWith(s, ".css") ==> EndsWith(r, ".css")
  {
    if EndsWith(s, ".css.css") then s[..|s| - 8] + ".min.css" else s
  }

  /** The output name wl.js derives when no `--output` is given. The guard
      tests `/\.css\.css$/i`, case-insensitively; the replacement inside it
      is case-sensitive. */
  function DefaultOutputName(inputName: string): (r: string)
    ensures |r| == |BaseName(inputName, LessExt)| + 4
  {
    var output := BaseName(inputName, LessExt) + ".css";
    if EndsWithIgnoringCase(output, ".css.css") then ReplaceDoubleCss(output) else output
  }

  /** The name in terms of the stem left after dropping ".less": a stem
      ending in lower-case ".css" gets ".min.css" in place of that ".css";
      any other stem gets ".css" appended. */
  lemma {:induction false} DefaultOutputFromStem(inputName: string)
    ensures var stem := BaseName(inputName, LessExt);
            && (EndsWith(stem, ".css") ==> DefaultOutputName(inputName) == stem[..|stem| - 4] + ".min.css")
            && (!EndsWith(stem, ".css") ==> DefaultOutputName(inputName) == stem + ".css")
  {
    var stem := BaseName(inputName, LessExt);
    var output := stem + ".css";
    assert DefaultOutputName(inputName) == ReplaceDoubleCss(output) by {
      DefaultOutputIgnoresGuard(inputName);
    }
    assert EndsWith(output, ".css.css") <==> EndsWith(stem, ".css") by {
      DoubleCssIffCssStem(stem);
    }
    if EndsWith(stem, ".css") {
      assert output[..|output| - 8] == stem[..|stem| - 4];
    }
  }

  /** Appending ".css" produces ".css.css" exactly when the stem ends in ".css". */
  lemma DoubleCssIffCssStem(stem: string)
    ensures EndsWith(stem + ".css", ".css.css") <==> EndsWith(stem, ".css")
  {
    var output := stem + ".css";
    if |stem| >= 4 {
      var tail := stem[|stem| - 4..];
      assert output[|output| - 8..] == tail + ".css";
      assert (tail + ".css")[..4] == tail;
      assert ".css.css"[..4] == ".css";
    }
  }

  /** The case-insensitive guard adds nothing: the name is exactly the
      case-sensitive replacement applied to `basename + ".css"`. A name that
      matches only case-insensitively, such as "X.CSS.css", is left as is. */
  lemma DefaultOutputIgnoresGuard(inputName: string)
    ensures DefaultOutputName(inputName) == ReplaceDoubleCss(BaseName(inputName, LessExt) + ".css")
  {
    var output := BaseName(inputName, LessExt) + ".css";
    if EndsWith(output, ".css.css") {
      EndsWithIgnoringCaseOf(output, ".css.css");
    }
  }

  /** The default output always carries a lower-case ".css" extension and is
      never the input's own name, so the build never overwrites its input. */
  lemma {:induction false} DefaultOutputIsNotInput(inputName: string)
    ensures EndsWith(DefaultOutputName(inputName), ".css")
    ensures DefaultOutputName(inputName) != inputName
  {
    DefaultOutputFromStem(inputName);
    var stem := BaseName(inputName, LessExt);
    var r := DefaultOutputName(inputName);
    if EndsWith(stem, ".css") {
      assert r[|r| - 4..] == ".min.css"[4..];
    } else {
      assert r[|r| - 4..] == ".css";
    }
  }

  /** Upper-case ".LESS" is not dropped by `path.basename`, even though the
      compile step treats such a file as LESS. */
  lemma UpperCaseLessKept()
    ensures DefaultOutputName("A.LESS") == "A.LESS.css"
  {
    assert !EndsWith("A.LESS", LessExt) by { assert "A.LESS"[1..][1] == 'L'; }
    DefaultOutputFromStem("A.LESS");
  }
}
