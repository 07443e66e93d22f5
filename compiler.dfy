/** `compile` (wl.js:35-59): read the input, run LESS over it when its
    extension says so, and hand back the CSS and, for LESS, the list of
    imported files. Reading and rendering are foreign calls and come in as
    their outcomes. */
module Compiler {
  import opened Results
  import opened Seqs

  /** What `less.render` produces: the CSS and the files it imported. */
  datatype LessOutput = LessOutput(css: string, imports: seq<string>)

  /** A successful compile: the CSS and, when LESS ran, `output.imports`
      (`undefined` for a plain CSS input). */
  datatype Compiled = Compiled(css: string, imports: Option<seq<string>>)

  /** `less.render` on the file's text. */
  type Render = string -> Result<LessOutput>

  /** `path.extname` on a final path component: from the last dot on, but
      empty when there is no dot, when the only dot starts the name, or for
      the name "..". */
  function ExtName(name: string): (r: string)
    ensures r == [] <==> |name| == 0 || '.' !in name[1..] || name == ".."
    ensures r == [] || (r[0] == '.' && '.' !in r[1..] && |r| < |name| && EndsWith(name, r))
  {
    var dot := LastIndexOf(name, '.');
    assert |name| > 0 ==> (dot <= 0 <==> '.' !in name[1..]) by {
      if |name| > 0 && dot > 0 {
        assert name[1..][dot - 1] == '.';
      }
      if |name| > 0 && '.' in name[1..] {
        var k :| 0 <= k < |name| - 1 && name[1..][k] == '.';
        assert name[k + 1] == '.';
      }
    }
    if dot <= 0 || name == ".." then [] else name[dot..]
  }

  /** `path.extname(file).toLowerCase() == ".less"`. */
  predicate IsLessFile(name: string)
    ensures IsLessFile(name) ==> |ExtName(name)| == 5 && |name| >= 6
  {
    EqualIgnoringCase(ExtName(name), ".less")
  }

  /** A file is treated as LESS exactly when its name ends in ".less", in any
      letter case, with at least one character before the dot. */
  lemma LessFileByName(name: string)
    ensures IsLessFile(name) <==> |name| >= 6 && EndsWithIgnoringCase(name, ".less")
  {
    if |name| >= 6 && EndsWithIgnoringCase(name, ".less") {
      LessSuffixIsExtension(name);
    }
    if IsLessFile(name) {
      ExtensionIsLessSuffix(name);
    }
  }

  lemma LessSuffixIsExtension(name: string)
    requires |name| >= 6 && EndsWithIgnoringCase(name, ".less")
    ensures IsLessFile(name)
  {
    var tail := name[|name| - 5..];
    assert name[|name| - 5] == '.' by {
      assert LowerAscii(tail[0]) == '.';
    }
    forall k | |name| - 5 < k < |name| ensures name[k] != '.' {
      assert LowerAscii(tail[k - (|name| - 5)]) == ".less"[k - (|name| - 5)];
    }
    var dot := LastIndexOf(name, '.');
    assert dot == |name| - 5;
    assert ExtName(name) == tail;
  }

  lemma ExtensionIsLessSuffix(name: string)
    requires IsLessFile(name)
    ensures |name| >= 6 && EndsWithIgnoringCase(name, ".less")
  {
    var ext := ExtName(name);
    assert |ext| == 5;
    assert EndsWith(name, ext);
    assert name[|name| - 5..] == ext;
  }

  /** `compile(file, callback)` with `file`'s final component `name`, the
      outcome of `fs.readFile` and the renderer. A LESS failure or a read
      failure becomes the error; a non-LESS file is passed through as CSS
      with no import list. */
  function Compile(name: string, read: Result<string>, render: Render): (r: Result<Compiled>)
    ensures read.Err? ==> r == Err(read.error)
    ensures read.Ok? && !IsLessFile(name) ==> r == Ok(Compiled(read.value, None))
    ensures r.Ok? && r.value.imports.Some? <==> read.Ok? && IsLessFile(name) && render(read.value).Ok?
    ensures read.Ok? && IsLessFile(name) && render(read.value).Ok? ==>
              r == Ok(Compiled(render(read.value).value.css, Some(render(read.value).value.imports)))
    ensures read.Ok? && IsLessFile(name) && render(read.value).Err? ==> r == Err(render(read.value).error)
  {
    match read
    case Err(e) => Err(e)
    case Ok(code) =>
      if IsLessFile(name) then
        match render(code)
        case Err(e) => Err(e)
        case Ok(output) => Ok(Compiled(output.css, Some(output.imports)))
      else
        Ok(Compiled(code, None))
  }
}
