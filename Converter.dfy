/** Converter.ts: bytes to kilobytes, the text artifact that carries a report
    from one pipeline to the next, and the extraction of a report from the
    bundle analyser's stats. */
module Converter {
  import opened Wrappers
  import opened Text
  import opened Reports

  // ===========================================================================
  // bytes2kilobytes

  /** `Math.ceil(bytes / 1024)`: the least number of whole kilobytes that
      hold `bytes`. */
  function Bytes2Kilobytes(bytes: nat): (kb: nat)
    ensures bytes <= kb * 1024
    ensures kb > 0 ==> (kb - 1) * 1024 < bytes
  {
    (bytes + 1023) / 1024
  }

  /** `Bytes2Kilobytes` is the least `k` with `bytes <= k * 1024`. */
  lemma KilobytesAtMost(bytes: nat, k: nat)
    ensures Bytes2Kilobytes(bytes) <= k <==> bytes <= k * 1024
  {
    var kb := Bytes2Kilobytes(bytes);
    if kb <= k {
      assert kb * 1024 <= k * 1024;
    }
  }

  /** Nothing is zero kilobytes; one byte up to a full kilobyte is one;
      one byte more is two. */
  lemma KilobyteSteps(bytes: nat)
    ensures Bytes2Kilobytes(0) == 0
    ensures 1 <= bytes <= 1024 ==> Bytes2Kilobytes(bytes) == 1
    ensures Bytes2Kilobytes(1025) == 2
  {
    if 1 <= bytes <= 1024 {
      KilobytesAtMost(bytes, 1);
      KilobytesAtMost(bytes, 0);
    }
  }

  /** Rounding the sum up is at least rounding either part up and at most the
      sum of the rounded parts; the extracted `total` lies in these bounds. */
  lemma TotalBounds(jsBytes: nat, cssBytes: nat)
    ensures Bytes2Kilobytes(jsBytes) <= Bytes2Kilobytes(jsBytes + cssBytes)
    ensures Bytes2Kilobytes(cssBytes) <= Bytes2Kilobytes(jsBytes + cssBytes)
    ensures Bytes2Kilobytes(jsBytes + cssBytes) <= Bytes2Kilobytes(jsBytes) + Bytes2Kilobytes(cssBytes)
  {
    var j, c, t := Bytes2Kilobytes(jsBytes), Bytes2Kilobytes(cssBytes), Bytes2Kilobytes(jsBytes + cssBytes);
    KilobytesAtMost(jsBytes, t);
    KilobytesAtMost(cssBytes, t);
    KilobytesAtMost(jsBytes + cssBytes, j + c);
  }

  // ===========================================================================
  // report2artifact

  /** One artifact line: `name total js css`. */
  function ArtifactLine(e: Entry): string {
    e.name + " " + ShowInt(e.size.total) + " " + ShowInt(e.size.js) + " " + ShowInt(e.size.css)
  }

  /** The `reduce` of report2artifact: every line followed by a newline. */
  function Collect(r: Report): string {
    if r == [] then "" else Collect(r[..|r| - 1]) + ArtifactLine(r[|r| - 1]) + "\n"
  }

  /** `.replace(/\n$/, "")`: drops one newline at the very end. */
  function StripFinalNewline(s: string): string {
    if s != "" && s[|s| - 1] == '\n' then s[..|s| - 1] else s
  }

  /** report2artifact. */
  function Report2Artifact(r: Report): string {
    StripFinalNewline(Collect(r))
  }

  /** The artifact lines of a report, one per entry, in report order. */
  function ArtifactLines(r: Report): (ls: seq<string>)
    ensures |ls| == |r| && forall i :: 0 <= i < |r| ==> ls[i] == ArtifactLine(r[i])
  {
    if r == [] then []
    else
      var front := r[..|r| - 1];
      assert forall i :: 0 <= i < |front| ==> front[i] == r[i];
      ArtifactLines(front) + [ArtifactLine(r[|r| - 1])]
  }

  lemma {:induction false} CollectJoin(r: Report)
    requires r != []
    ensures Collect(r) == Join(ArtifactLines(r), '\n') + "\n"
    decreases |r|
  {
    var p := r[..|r| - 1];
    if p != [] {
      CollectJoin(p);
      var lp, last := ArtifactLines(p), ArtifactLine(r[|r| - 1]);
      JoinSnoc(lp, last, '\n');
      NewlineAssoc(Join(lp, '\n'), last);
    }
  }

  /** String regrouping for the solver (a proof step with no meaning of its own). */
  lemma NewlineAssoc(a: string, b: string)
    ensures a + "\n" + b + "\n" == a + ['\n'] + b + "\n"
  {
  }

  /** report2artifact writes one line per entry, in report order, separated
      by newlines, with no newline at the end; the empty report gives the
      empty text. */
  lemma Report2ArtifactJoin(r: Report)
    ensures r == [] ==> Report2Artifact(r) == ""
    ensures r != [] ==> Report2Artifact(r) == Join(ArtifactLines(r), '\n')
  {
    if r != [] {
      CollectJoin(r);
      var j := Join(ArtifactLines(r), '\n');
      assert (j + "\n")[..|j|] == j;
    }
  }

  /** When names hold no newline, splitting the artifact on newlines gives
      back exactly the report's lines. */
  lemma Report2ArtifactLines(r: Report)
    requires r != []
    requires forall i :: 0 <= i < |r| ==> '\n' !in r[i].name
    ensures Split(Report2Artifact(r), '\n') == ArtifactLines(r)
  {
    Report2ArtifactJoin(r);
    var ls := ArtifactLines(r);
    forall i | 0 <= i < |ls| ensures '\n' !in ls[i] {
      ArtifactLineNoNewline(r[i]);
    }
    SplitJoin(ls, '\n');
  }

  lemma ArtifactLineNoNewline(e: Entry)
    requires '\n' !in e.name
    ensures '\n' !in ArtifactLine(e)
  {
    var t, j, c := ShowInt(e.size.total), ShowInt(e.size.js), ShowInt(e.size.css);
    assert IsSpace('\n');
    assert '\n' !in t && '\n' !in j && '\n' !in c;
  }

  // ===========================================================================
  // artifact2report

  /** What the decoder makes of one line. `Malformed` and `Invalid` are the
      two lines it warns about and skips. */
  datatype LineOutcome = Blank | Malformed | Invalid | Parsed(entry: Entry)

  /** The body of artifact2report's `reduce` for one line. */
  function DecodeLine(line: string): LineOutcome {
    if Trim(line) == "" then Blank
    else
      var parts := Tokens(line);
      if |parts| < 2 then Malformed
      else
        var name := parts[0];
        var total := ParseInt(parts[1]);
        if name == "" || total.None? || total.value < 0 then Invalid
        else if |parts| >= 4 && ParseInt(parts[2]).Some? && ParseInt(parts[3]).Some? then
          // new format: name total js css
          Parsed(Entry(name, ComponentSize(ParseInt(parts[2]).value, ParseInt(parts[3]).value, total.value)))
        else
          // old format: name total, all of it JavaScript
          Parsed(Entry(name, ComponentSize(total.value, 0, total.value)))
  }

  /** A line is skipped as blank exactly when it is all whitespace. */
  lemma DecodeBlankIff(line: string)
    ensures DecodeLine(line) == Blank <==> AllSpace(line)
  {
    TrimEmptyIffAllSpace(line);
  }

  /** A line that is not blank is skipped as malformed exactly when it has
      fewer than two tokens. */
  lemma DecodeMalformedIff(line: string)
    ensures DecodeLine(line) == Malformed <==> !AllSpace(line) && |Tokens(line)| < 2
  {
    TrimEmptyIffAllSpace(line);
  }

  /** A line of two or more tokens is skipped as invalid exactly when its
      second token is not a non-negative number. */
  lemma DecodeInvalidIff(line: string)
    ensures DecodeLine(line) == Invalid <==>
              |Tokens(line)| >= 2 && (ParseInt(Tokens(line)[1]).None? || ParseInt(Tokens(line)[1]).value < 0)
  {
    TrimEmptyIffAllSpace(line);
    TokensAreWords(line);
  }

  /** A valid line sets the name of its first token to the total of its
      second; with four or more tokens whose third and fourth are numbers it
      is in the new format and they give js and css, otherwise it is in the
      old format and all of the total is JavaScript. */
  lemma DecodeParsedShape(line: string)
    requires DecodeLine(line).Parsed?
    ensures var ts, e := Tokens(line), DecodeLine(line).entry;
            && |ts| >= 2 && e.name == ts[0]
            && ParseInt(ts[1]) == Some(e.size.total) && e.size.total >= 0
            && if |ts| >= 4 && ParseInt(ts[2]).Some? && ParseInt(ts[3]).Some?
               then ParseInt(ts[2]) == Some(e.size.js) && ParseInt(ts[3]) == Some(e.size.css)
               else e.size.js == e.size.total && e.size.css == 0
  {
  }

  /** A line in the old two-field format puts all of its total on
      JavaScript. */
  lemma LegacyLineExample()
    ensures DecodeLine("Foo 42") == Parsed(Entry("Foo", ComponentSize(42, 0, 42)))
  {
    LegacyLineTokens();
  }

  lemma LegacyLineTokens()
    ensures Trim("Foo 42") != "" && Tokens("Foo 42") == ["Foo", "42"] && ParseInt("42") == Some(42)
  {
    var ws := ["Foo", "42"];
    assert ws[1..] == ["42"];
    assert Unwords(ws) == "Foo 42";
    assert NoSpace("Foo") && NoSpace("42");
    TokensOfUnwords(ws);
    ParseFortyTwo();
    TrimEmptyIffAllSpace("Foo 42");
    assert !IsSpace("Foo 42"[0]);
  }

  lemma ParseFortyTwo()
    ensures ParseInt("42") == Some(42)
  {
    assert ShowNat(4) == "4";
    assert ShowInt(42) == "42";
    ParseShow(42);
  }

  /** One step of the `reduce`: a parsed line sets its key, any other line
      leaves the report as it is. */
  function Apply(acc: Report, line: string): Report {
    match DecodeLine(line)
    case Parsed(e) => Put(acc, e.name, e.size)
    case _ => acc
  }

  /** The `reduce` over the lines, from the left. */
  function DecodeLines(acc: Report, lines: seq<string>): (r: Report)
    ensures UniqueNames(acc) ==> UniqueNames(r)
    decreases |lines|
  {
    if lines == [] then acc
    else Apply(DecodeLines(acc, lines[..|lines| - 1]), lines[|lines| - 1])
  }

  /** artifact2report. */
  function Artifact2Report(artifact: string): (r: Report)
    ensures UniqueNames(r)
  {
    if Trim(artifact) == "" then [] else DecodeLines([], Split(artifact, '\n'))
  }

  /** Empty or all-whitespace text decodes to the empty report. */
  lemma BlankArtifact(artifact: string)
    requires AllSpace(artifact)
    ensures Artifact2Report(artifact) == []
  {
    TrimEmptyIffAllSpace(artifact);
  }

  /** The early return for blank text agrees with the `reduce`: the report is
      always the fold of the lines. */
  lemma Artifact2ReportIsFold(artifact: string)
    ensures Artifact2Report(artifact) == DecodeLines([], Split(artifact, '\n'))
  {
    if Trim(artifact) == "" {
      TrimEmptyIffAllSpace(artifact);
      var lines := Split(artifact, '\n');
      SplitAllSpace(artifact, '\n');
      forall k | 0 <= k <= |lines| ensures DecodeLines([], lines[..k]) == [] {
        DecodeBlankLines(lines, k);
      }
      assert lines[..|lines|] == lines;
    }
  }

  lemma {:induction false} DecodeBlankLines(lines: seq<string>, k: nat)
    requires k <= |lines|
    requires forall i :: 0 <= i < |lines| ==> AllSpace(lines[i])
    ensures DecodeLines([], lines[..k]) == []
  {
    if k > 0 {
      DecodeBlankLines(lines, k - 1);
      assert lines[..k][..k - 1] == lines[..k - 1];
      DecodeBlankIff(lines[k - 1]);
    }
  }

  /** Folding over two runs of lines is folding over the first, then the
      second. */
  lemma {:induction false} DecodeLinesAppend(acc: Report, xs: seq<string>, ys: seq<string>)
    ensures DecodeLines(acc, xs + ys) == DecodeLines(DecodeLines(acc, xs), ys)
    decreases |ys|
  {
    if ys == [] {
      assert xs + ys == xs;
    } else {
      var ys' := ys[..|ys| - 1];
      assert (xs + ys)[..|xs + ys| - 1] == xs + ys';
      DecodeLinesAppend(acc, xs, ys');
    }
  }

  /** A line that is skipped (blank, malformed or invalid) has no effect on
      the decoding of the lines around it. */
  lemma SkippedLineIsolated(acc: Report, xs: seq<string>, skipped: string, ys: seq<string>)
    requires !DecodeLine(skipped).Parsed?
    ensures DecodeLines(acc, xs + [skipped] + ys) == DecodeLines(acc, xs + ys)
  {
    DecodeLinesAppend(acc, xs + [skipped], ys);
    DecodeLinesAppend(acc, xs, ys);
    assert (xs + [skipped])[..|xs|] == xs;
  }

  /** The line at `i` parses to an entry named `name`. */
  predicate NamesLine(line: string, name: string) {
    DecodeLine(line).Parsed? && DecodeLine(line).entry.name == name
  }

  /** When several lines set the same name, the last of them decides its value. */
  lemma {:induction false} LaterLineWins(acc: Report, lines: seq<string>, i: nat)
    requires i < |lines| && DecodeLine(lines[i]).Parsed?
    requires forall j :: i < j < |lines| ==> !NamesLine(lines[j], DecodeLine(lines[i]).entry.name)
    ensures Lookup(DecodeLines(acc, lines), DecodeLine(lines[i]).entry.name) == Some(DecodeLine(lines[i]).entry.size)
    decreases |lines|
  {
    var p := lines[..|lines| - 1];
    var last := lines[|lines| - 1];
    var e := DecodeLine(lines[i]).entry;
    var before := DecodeLines(acc, p);
    assert DecodeLines(acc, lines) == Apply(before, last);
    if i < |lines| - 1 {
      assert p[i] == lines[i];
      LaterLineWins(acc, p, i);
      assert !NamesLine(last, e.name);
      if DecodeLine(last).Parsed? {
        PutOther(before, DecodeLine(last).entry.name, DecodeLine(last).entry.size, e.name);
      }
    } else {
      assert DecodeLines(acc, lines) == Put(before, e.name, e.size);
    }
  }

  /** The names set by the lines that parse, in line order. */
  function LineNames(lines: seq<string>): seq<string>
    decreases |lines|
  {
    if lines == [] then []
    else
      var d := DecodeLine(lines[|lines| - 1]);
      LineNames(lines[..|lines| - 1]) + (if d.Parsed? then [d.entry.name] else [])
  }

  /** The decoded report holds a name exactly when the starting report does
      or some line that parses sets it. */
  lemma {:induction false} DecodedNames(acc: Report, lines: seq<string>, name: string)
    ensures name in Names(DecodeLines(acc, lines)) <==> name in Names(acc) || name in LineNames(lines)
    decreases |lines|
  {
    if lines != [] {
      var p, last := lines[..|lines| - 1], lines[|lines| - 1];
      var before := DecodeLines(acc, p);
      assert DecodeLines(acc, lines) == Apply(before, last);
      DecodedNames(acc, p, name);
      ApplyNames(before, last, name);
    }
  }

  lemma ApplyNames(before: Report, line: string, name: string)
    ensures name in Names(Apply(before, line)) <==> name in Names(before) || NamesLine(line, name)
  {
  }



  /** Reports the encoder can write faithfully: non-empty names without
      whitespace, non-negative totals, no name twice. */
  predicate Encodable(r: Report) {
    && UniqueNames(r)
    && forall i :: 0 <= i < |r| ==> r[i].name != "" && NoSpace(r[i].name) && r[i].size.total >= 0
  }

  /** Each line the encoder writes decodes to the entry it came from. */
  lemma DecodeArtifactLine(e: Entry)
    requires e.name != "" && NoSpace(e.name) && e.size.total >= 0
    ensures DecodeLine(ArtifactLine(e)) == Parsed(e)
  {
    var t, j, c := ShowInt(e.size.total), ShowInt(e.size.js), ShowInt(e.size.css);
    var ws := [e.name, t, j, c];
    ArtifactLineUnwords(e);
    TokensOfUnwords(ws);
    UnwordsEdges(ws);
    ParseShow(e.size.total);
    ParseShow(e.size.js);
    ParseShow(e.size.css);
  }

  lemma ArtifactLineUnwords(e: Entry)
    ensures ArtifactLine(e) == Unwords([e.name, ShowInt(e.size.total), ShowInt(e.size.js), ShowInt(e.size.css)])
  {
    var n, t, j, c := e.name, ShowInt(e.size.total), ShowInt(e.size.js), ShowInt(e.size.css);
    assert Unwords([c]) == c;
    assert Unwords([j, c]) == j + " " + c;
    assert Unwords([t, j, c]) == t + " " + (j + " " + c);
    assert Unwords([n, t, j, c]) == n + " " + (t + " " + (j + " " + c));
  }

  lemma {:induction false} DecodeArtifactLines(r: Report)
    requires Encodable(r)
    ensures DecodeLines([], ArtifactLines(r)) == r
    decreases |r|
  {
    if r != [] {
      var p := r[..|r| - 1];
      EncodableFront(r);
      DecodeArtifactLines(p);
      DecodeLastLine(r);
    }
  }

  /** The front of an encodable report is encodable, and its last entry is
      a fresh, encodable key (a proof step). */
  lemma EncodableFront(r: Report)
    requires Encodable(r) && r != []
    ensures Encodable(r[..|r| - 1])
    ensures var e := r[|r| - 1]; e.name != "" && NoSpace(e.name) && e.size.total >= 0
    ensures r[|r| - 1].name !in Names(r[..|r| - 1])
  {
    var p, e := r[..|r| - 1], r[|r| - 1];
    forall i | 0 <= i < |p| ensures p[i] == r[i] && Names(p)[i] != e.name {
    }
  }

  lemma DecodeLastLine(r: Report)
    requires r != []
    requires DecodeLines([], ArtifactLines(r[..|r| - 1])) == r[..|r| - 1]
    requires var e := r[|r| - 1]; e.name != "" && NoSpace(e.name) && e.size.total >= 0
    requires r[|r| - 1].name !in Names(r[..|r| - 1])
    ensures DecodeLines([], ArtifactLines(r)) == r
  {
    var p, e := r[..|r| - 1], r[|r| - 1];
    DecodeLinesSnoc(r);
    ApplyArtifactLine(p, e);
    PutLast(r);
  }

  lemma DecodeLinesSnoc(r: Report)
    requires r != []
    ensures DecodeLines([], ArtifactLines(r))
         == Apply(DecodeLines([], ArtifactLines(r[..|r| - 1])), ArtifactLine(r[|r| - 1]))
  {
    var ls := ArtifactLines(r);
    assert ls[..|ls| - 1] == ArtifactLines(r[..|r| - 1]);
  }

  lemma ApplyArtifactLine(acc: Report, e: Entry)
    requires e.name != "" && NoSpace(e.name) && e.size.total >= 0
    ensures Apply(acc, ArtifactLine(e)) == Put(acc, e.name, e.size)
  {
    DecodeArtifactLine(e);
  }

  lemma PutLast(r: Report)
    requires r != []
    requires r[|r| - 1].name !in Names(r[..|r| - 1])
    ensures Put(r[..|r| - 1], r[|r| - 1].name, r[|r| - 1].size) == r
  {
    PutNew(r[..|r| - 1], r[|r| - 1].name, r[|r| - 1].size);
    FrontLast(r);
  }

  /** Round trip: decoding what the encoder writes gives back the report. */
  lemma RoundTrip(r: Report)
    requires Encodable(r)
    ensures Artifact2Report(Report2Artifact(r)) == r
  {
    Report2ArtifactJoin(r);
    if r != [] {
      forall i | 0 <= i < |r| ensures '\n' !in r[i].name {
        assert IsSpace('\n');
      }
      Report2ArtifactLines(r);
      ArtifactNotBlank(r);
      DecodeArtifactLines(r);
    }
  }

  lemma ArtifactNotBlank(r: Report)
    requires r != [] && r[0].name != "" && NoSpace(r[0].name)
    ensures Trim(Report2Artifact(r)) != ""
  {
    Report2ArtifactJoin(r);
    var ls := ArtifactLines(r);
    assert ls[0] == ArtifactLine(r[0]);
    assert ls[0][0] == r[0].name[0];
    JoinFirst(ls, '\n');
    TrimEmptyIffAllSpace(Report2Artifact(r));
  }

  // ===========================================================================
  // extractComponentSizes

  /** One record of the bundle analyser's stats: a file and its size in
      bytes (a missing size counts as 0). */
  datatype StatsEntry = StatsEntry(filename: string, parsedSize: nat)

  /** `filename.match(/^es\/([^/]+)\/index\.js$/)`, giving the captured
      component name. */
  function MatchComponent(filename: string): (m: Option<string>)
    ensures m.Some? ==> m.value != "" && '/' !in m.value && filename == "es/" + m.value + "/index.js"
  {
    var n := |filename|;
    if n >= 13 && filename[..3] == "es/" && filename[n - 9..] == "/index.js" && '/' !in filename[3..n - 9]
    then
      assert filename == filename[..3] + filename[3..n - 9] + filename[n - 9..];
      Some(filename[3..n - 9])
    else None
  }

  /** Every file `es/<name>/index.js` whose name is non-empty and holds no
      slash matches, and captures that name. */
  lemma MatchComponentComplete(name: string)
    requires name != "" && '/' !in name
    ensures MatchComponent("es/" + name + "/index.js") == Some(name)
  {
    var f := "es/" + name + "/index.js";
    var n := |f|;
    assert f[..3] == "es/";
    assert f[n - 9..] == "/index.js";
    assert f[3..n - 9] == name;
  }

  /** A chunk next to a component's entry point is not a component. */
  lemma ChunkIsNotComponent()
    ensures MatchComponent("es/Banner/Banner.chunk.js") == None
  {
    var f := "es/Banner/Banner.chunk.js";
    assert f[|f| - 9..] == ".chunk.js";
  }

  /** The test of the `find` callback: the lower-cased file name is
      `es/<lower name>/<lower name>.css` or `es/<name>/<lower name>.css`. */
  predicate IsCssFor(filename: string, name: string) {
    var f, lower := Lower(filename), Lower(name);
    f == "es/" + lower + "/" + lower + ".css" || f == "es/" + name + "/" + lower + ".css"
  }

  /** The second form of the test adds nothing: a lower-cased file name that
      equals `es/<name>/<lower name>.css` is already lower case, so it also
      equals `es/<lower name>/<lower name>.css`. */
  lemma CssSecondFormSubsumed(filename: string, name: string)
    ensures IsCssFor(filename, name) <==> Lower(filename) == "es/" + Lower(name) + "/" + Lower(name) + ".css"
  {
    var f, lower := Lower(filename), Lower(name);
    var second := "es/" + name + "/" + lower + ".css";
    if f == second {
      LowerIdempotent(filename);
      LowerIdempotent(name);
      LowerConcat("es/" + name + "/" + lower, ".css");
      LowerConcat("es/" + name + "/", lower);
      LowerConcat("es/" + name, "/");
      LowerConcat("es/", name);
      assert Lower(".css") == ".css";
      assert Lower("/") == "/";
      assert Lower("es/") == "es/";
    }
  }

  /** Index of the first stylesheet record of component `name`, or `|stats|`. */
  function FirstCssIndex(stats: seq<StatsEntry>, name: string): (i: nat)
    ensures i <= |stats|
    ensures forall j :: 0 <= j < i ==> !IsCssFor(stats[j].filename, name)
    ensures i < |stats| ==> IsCssFor(stats[i].filename, name)
  {
    if stats == [] then 0
    else if IsCssFor(stats[0].filename, name) then 0
    else 1 + FirstCssIndex(stats[1..], name)
  }

  /** `stats.find(...)` for the stylesheet of component `name`: the first
      record that passes the test, if any. */
  method FindCssEntry(stats: seq<StatsEntry>, name: string) returns (found: Option<StatsEntry>)
    ensures found.None? <==> FirstCssIndex(stats, name) == |stats|
    ensures found.Some? ==> found.value == stats[FirstCssIndex(stats, name)]
  {
    var k := 0;
    while k < |stats|
      invariant k <= |stats|
      invariant forall j :: 0 <= j < k ==> !IsCssFor(stats[j].filename, name)
    {
      if IsCssFor(stats[k].filename, name) {
        FirstCssIndexIs(stats, name, k);
        return Some(stats[k]);
      }
      k := k + 1;
    }
    FirstCssIndexIs(stats, name, k);
    return None;
  }

  /** The first index that passes the test, after a run that does not. */
  lemma FirstCssIndexIs(stats: seq<StatsEntry>, name: string, k: nat)
    requires k <= |stats|
    requires forall j :: 0 <= j < k ==> !IsCssFor(stats[j].filename, name)
    requires k < |stats| ==> IsCssFor(stats[k].filename, name)
    ensures FirstCssIndex(stats, name) == k
  {
  }

  /** The stylesheet bytes of component `name`: the size of its first
      stylesheet record, or 0 when there is none. */
  function CssBytes(stats: seq<StatsEntry>, name: string): nat {
    var i := FirstCssIndex(stats, name);
    if i < |stats| then stats[i].parsedSize else 0
  }

  /** The size record of a component with `jsBytes` of script and `cssBytes`
      of stylesheet: each part rounded up to kilobytes, and the total rounded
      up from the sum of the bytes, so that it lies between the larger part
      and the sum of the parts. */
  function SizeOf(jsBytes: nat, cssBytes: nat): (s: ComponentSize)
    ensures s.js == Bytes2Kilobytes(jsBytes) && s.css == Bytes2Kilobytes(cssBytes)
    ensures 0 <= s.js <= s.total && 0 <= s.css <= s.total && s.total <= s.js + s.css
  {
    TotalBounds(jsBytes, cssBytes);
    ComponentSize(Bytes2Kilobytes(jsBytes), Bytes2Kilobytes(cssBytes), Bytes2Kilobytes(jsBytes + cssBytes))
  }

  /** The report after the loop has visited the first `k` records; the
      stylesheet is always looked up among all records. */
  function ExtractPrefix(stats: seq<StatsEntry>, k: nat): (r: Report)
    requires k <= |stats|
    ensures UniqueNames(r)
  {
    if k == 0 then []
    else
      var acc := ExtractPrefix(stats, k - 1);
      match MatchComponent(stats[k - 1].filename)
      case None => acc
      case Some(name) => Put(acc, name, SizeOf(stats[k - 1].parsedSize, CssBytes(stats, name)))
  }

  lemma ExtractPrefixStep(stats: seq<StatsEntry>, j: nat, k: nat)
    requires k == j + 1 <= |stats|
    ensures MatchComponent(stats[j].filename).None? ==> ExtractPrefix(stats, k) == ExtractPrefix(stats, j)
    ensures MatchComponent(stats[j].filename).Some? ==>
              var name := MatchComponent(stats[j].filename).value;
              ExtractPrefix(stats, k) == Put(ExtractPrefix(stats, j), name, SizeOf(stats[j].parsedSize, CssBytes(stats, name)))
  {
  }

  function Extracted(stats: seq<StatsEntry>): Report {
    ExtractPrefix(stats, |stats|)
  }

  /** extractComponentSizes. */
  method ExtractComponentSizes(stats: seq<StatsEntry>) returns (report: Report)
    ensures report == Extracted(stats)
    ensures UniqueNames(report)
  {
    report := [];
    for k := 0 to |stats|
      invariant report == ExtractPrefix(stats, k)
    {
      var entry := stats[k];
      var m := MatchComponent(entry.filename);
      ghost var next: nat := k + 1;
      ExtractPrefixStep(stats, k, next);
      if m.None? {
        continue;
      }
      var componentName := m.value;
      var size := MeasureComponent(stats, componentName, entry.parsedSize);
      report := Put(report, componentName, size);
    }
  }

  /** The size record of one component whose entry point has `jsSize`
      bytes: its stylesheet is looked up, then each part and the total are
      converted to kilobytes. */
  method MeasureComponent(stats: seq<StatsEntry>, componentName: string, jsSize: nat) returns (size: ComponentSize)
    ensures size == SizeOf(jsSize, CssBytes(stats, componentName))
  {
    var cssEntry := FindCssEntry(stats, componentName);
    var cssSize := if cssEntry.Some? then cssEntry.value.parsedSize else 0;
    var totalSize := jsSize + cssSize;
    size := ComponentSize(Bytes2Kilobytes(jsSize), Bytes2Kilobytes(cssSize), Bytes2Kilobytes(totalSize));
  }

  /** Some record among the first `k` is the `es/<name>/index.js` entry
      point of component `name`. */
  predicate HasEntryPoint(stats: seq<StatsEntry>, k: nat, name: string)
    requires k <= |stats|
  {
    exists i :: 0 <= i < k && MatchComponent(stats[i].filename) == Some(name)
  }

  /** A component is in the report exactly when some record is its
      `es/<name>/index.js` entry point. */
  lemma {:induction false} ExtractedNames(stats: seq<StatsEntry>, k: nat, name: string)
    requires k <= |stats|
    ensures name in Names(ExtractPrefix(stats, k)) <==> HasEntryPoint(stats, k, name)
  {
    if k > 0 {
      var j: nat := k - 1;
      ExtractedNames(stats, j, name);
      ExtractStepNames(stats, j, k, name);
      EntryPointStep(stats, j, k, name);
    }
  }

  lemma ExtractStepNames(stats: seq<StatsEntry>, j: nat, k: nat, name: string)
    requires k == j + 1 <= |stats|
    ensures name in Names(ExtractPrefix(stats, k)) <==>
              name in Names(ExtractPrefix(stats, j)) || MatchComponent(stats[j].filename) == Some(name)
  {
  }

  lemma EntryPointStep(stats: seq<StatsEntry>, j: nat, k: nat, name: string)
    requires k == j + 1 <= |stats|
    ensures HasEntryPoint(stats, k, name) <==>
              HasEntryPoint(stats, j, name) || MatchComponent(stats[j].filename) == Some(name)
  {
    if HasEntryPoint(stats, k, name) && MatchComponent(stats[j].filename) != Some(name) {
      var i :| 0 <= i < k && MatchComponent(stats[i].filename) == Some(name);
      assert i < j;
    }
  }

  /** The component names of the first `k` records' entry points, each
      listed once, at its first entry point. */
  function EntryPointOrder(stats: seq<StatsEntry>, k: nat): (ns: seq<string>)
    requires k <= |stats|
    ensures forall a, b :: 0 <= a < b < |ns| ==> ns[a] != ns[b]
  {
    if k == 0 then []
    else
      var prev := EntryPointOrder(stats, k - 1);
      match MatchComponent(stats[k - 1].filename)
      case Some(name) => if name in prev then prev else prev + [name]
      case None => prev
  }

  /** The report's keys are the components in the order of their first
      entry-point record, without repeats: a later record of the same
      component updates its sizes in place. */
  lemma {:induction false} ExtractedOrder(stats: seq<StatsEntry>, k: nat)
    requires k <= |stats|
    ensures Names(ExtractPrefix(stats, k)) == EntryPointOrder(stats, k)
  {
    if k > 0 {
      var j: nat := k - 1;
      ExtractedOrder(stats, j);
      ExtractPrefixStep(stats, j, k);
      EntryPointOrderStep(stats, j, k);
      var m := MatchComponent(stats[j].filename);
      if m.Some? {
        var prefix := ExtractPrefix(stats, j);
        var size := SizeOf(stats[j].parsedSize, CssBytes(stats, m.value));
        assert ExtractPrefix(stats, k) == Put(prefix, m.value, size);
      }
    }
  }

  lemma EntryPointOrderStep(stats: seq<StatsEntry>, j: nat, k: nat)
    requires k == j + 1 <= |stats|
    ensures MatchComponent(stats[j].filename).None? ==> EntryPointOrder(stats, k) == EntryPointOrder(stats, j)
    ensures MatchComponent(stats[j].filename).Some? ==>
              var name := MatchComponent(stats[j].filename).value;
              var prev := EntryPointOrder(stats, j);
              EntryPointOrder(stats, k) == if name in prev then prev else prev + [name]
  {
  }

  /** When a component has several entry-point records, the last one gives
      its script size; the stylesheet is the first matching one. */
  lemma {:induction false} ExtractedLastWins(stats: seq<StatsEntry>, k: nat, i: nat, name: string)
    requires i < k <= |stats|
    requires MatchComponent(stats[i].filename) == Some(name)
    requires forall j :: i < j < k ==> MatchComponent(stats[j].filename) != Some(name)
    ensures Lookup(ExtractPrefix(stats, k), name) == Some(SizeOf(stats[i].parsedSize, CssBytes(stats, name)))
  {
    var j: nat := k - 1;
    var prefix := ExtractPrefix(stats, j);
    var m := MatchComponent(stats[j].filename);
    ExtractPrefixStep(stats, j, k);
    if i < j {
      ExtractedLastWins(stats, j, i, name);
      assert m != Some(name);
      if m.Some? {
        PutOther(prefix, m.value, SizeOf(stats[j].parsedSize, CssBytes(stats, m.value)), name);
      }
    } else {
      assert m == Some(name);
      assert ExtractPrefix(stats, k) == Put(prefix, name, SizeOf(stats[i].parsedSize, CssBytes(stats, name)));
    }
  }
}
