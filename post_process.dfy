/** `prefix` (wl.js:92-112): which PostCSS plugins run over the compiled
    CSS, and in which order. PostCSS itself and the plugins are foreign
    code; running a pipeline is a parameter `process`, and the plugins are
    opaque list elements. */
module PostProcess {
  import opened Results

  datatype Transform =
    | Autoprefixer(browsers: Option<seq<string>>)     // configured by --prefix-browsers, if given
    | Cssnano(convertValues: bool, colormin: bool)    // wl.js:98-101 turns both off

  /** `postcss(pipeline).process(css)`: the outcome of running a pipeline. */
  type PostCss = (seq<Transform>, string) -> Result<string>

  /** The plugin list built when prefixing is on. */
  function Pipeline(browsers: Option<seq<string>>, compact: bool): (r: seq<Transform>)
    ensures 1 <= |r| <= 2
    ensures r[0] == Autoprefixer(browsers)
    ensures Cssnano(false, false) in r <==> compact
    ensures forall i :: 0 < i < |r| ==> r[i] == Cssnano(false, false)
  {
    var pipeline := [Autoprefixer(browsers)];
    if compact then pipeline + [Cssnano(false, false)] else pipeline
  }

  /** `prefix(css, callback)`, with the callback's (err, css) as a Result. */
  function Prefix(css: string, applyPrefixes: bool, browsers: Option<seq<string>>, compact: bool,
                  process: PostCss): (r: Result<string>)
    ensures !applyPrefixes ==> r == Ok(css)
    ensures applyPrefixes ==> r == process(Pipeline(browsers, compact), css)
  {
    if applyPrefixes then process(Pipeline(browsers, compact), css) else Ok(css)
  }

  /** Minification never runs before vendor prefixing. */
  lemma {:induction false} PrefixBeforeMinify(browsers: Option<seq<string>>, compact: bool, i: nat, j: nat)
    requires i < |Pipeline(browsers, compact)| && j < |Pipeline(browsers, compact)|
    requires Pipeline(browsers, compact)[i].Cssnano? && Pipeline(browsers, compact)[j].Autoprefixer?
    ensures j < i
  {
  }
}
