/**
 The build script that splits the local-government directory, one JSON array
 of regions, into one file per region named after the region's slug.
 Reading the input, `JSON.parse`, `JSON.stringify` and the console are
 outside the model: the parsed value is an input, the output directory is an
 object holding a map from file name to the JSON value written there, and
 the warnings are returned as a list of the labels the script prints.
 */
module SplitLgu {
  import opened Optional

  /** A parsed JSON value; numbers are modelled as integers. */
  datatype Json =
    | JNull
    | JBool(b: bool)
    | JNum(n: int)
    | JStr(s: string)
    | JArr(items: seq<Json>)
    | JObj(fields: map<string, Json>)

  /** JavaScript truthiness of a JSON value. */
  predicate Truthy(j: Json)
  {
    match j
    case JNull => false
    case JBool(b) => b
    case JNum(n) => n != 0
    case JStr(s) => s != ""
    case JArr(_) => true
    case JObj(_) => true
  }

  /** `typeof j === 'object'`: true of null, arrays and objects. */
  predicate IsObject(j: Json)
  {
    j.JNull? || j.JArr? || j.JObj?
  }

  /** Property access `j.key`; None stands for `undefined`. */
  function Member(j: Json, key: string): Option<Json>
  {
    if j.JObj? && key in j.fields then Some(j.fields[key]) else None
  }

  /** What the loop body does with one region. */
  datatype Disposition =
    | SkipSilently
    | SkipWithWarning(shown: Json)
    | Write(fileName: string)

  /**
   The skip rules and the file-name rule of the loop body: a region is
   written exactly when it is an object with a non-empty string slug, under
   the name slug + ".json", and skipped silently exactly when it is neither an
   object nor an array.
   */
  function Classify(region: Json): (d: Disposition)
    ensures d.Write? <==>
      region.JObj? && "slug" in region.fields && region.fields["slug"].JStr? && region.fields["slug"].s != ""
    ensures d.Write? ==> d.fileName == region.fields["slug"].s + ".json"
    ensures d.SkipSilently? <==> !(region.JArr? || region.JObj?)
    ensures d.SkipWithWarning? ==> d.shown == WarningLabel(region)
  {
    if !Truthy(region) || !IsObject(region) then SkipSilently
    else
      match Member(region, "slug")
      case Some(JStr(slug)) =>
        if slug != "" then Write(FileName(slug)) else SkipWithWarning(WarningLabel(region))
      case _ => SkipWithWarning(WarningLabel(region))
  }

  function FileName(slug: string): string
  {
    slug + ".json"
  }

  /** `region.region || '(unknown)'`. */
  function WarningLabel(region: Json): (shown: Json)
    ensures Truthy(shown)
    ensures shown == JStr("(unknown)") || Member(region, "region") == Some(shown)
    ensures Member(region, "region").Some? && Truthy(Member(region, "region").value) ==>
              shown == Member(region, "region").value
  {
    match Member(region, "region")
    case Some(v) => if Truthy(v) then v else JStr("(unknown)")
    case None => JStr("(unknown)")
  }

  datatype FileWrite = FileWrite(name: string, content: Json)

  /** The writes the loop performs, in input order. */
  function Writes(regions: seq<Json>): (ws: seq<FileWrite>)
    ensures |ws| <= |regions|
  {
    if regions == [] then []
    else
      var last := regions[|regions| - 1];
      Writes(regions[..|regions| - 1]) +
        match Classify(last)
        case Write(name) => [FileWrite(name, last)]
        case _ => []
  }

  /** The warning labels the loop prints, in input order. */
  function Warnings(regions: seq<Json>): (labels: seq<Json>)
    ensures |labels| <= |regions|
  {
    if regions == [] then []
    else
      var last := regions[|regions| - 1];
      Warnings(regions[..|regions| - 1]) +
        match Classify(last)
        case SkipWithWarning(shown) => [shown]
        case _ => []
  }

  /** Every write stores a region that Classify accepts, under the file name Classify gives it. */
  lemma {:induction false} WritesMatchClassify(regions: seq<Json>)
    ensures forall w :: w in Writes(regions) ==> Classify(w.content) == Write(w.name)
  {
    if regions != [] {
      var init, last := regions[..|regions| - 1], regions[|regions| - 1];
      WritesMatchClassify(init);
      assert Writes(regions) == Writes(init) +
        if Classify(last).Write? then [FileWrite(Classify(last).fileName, last)] else [];
    }
  }

  /** Every label the loop prints is truthy, because it comes from WarningLabel. */
  lemma {:induction false} WarningsAreTruthy(regions: seq<Json>)
    ensures forall j :: j in Warnings(regions) ==> Truthy(j)
  {
    if regions != [] {
      var init, last := regions[..|regions| - 1], regions[|regions| - 1];
      WarningsAreTruthy(init);
      assert Warnings(regions) == Warnings(init) +
        if Classify(last).SkipWithWarning? then [Classify(last).shown] else [];
    }
  }

  /** The file map after performing the writes one after another. */
  function ApplyWrites(files: map<string, Json>, ws: seq<FileWrite>): map<string, Json>
  {
    if ws == [] then files
    else ApplyWrites(files, ws[..|ws| - 1])[ws[|ws| - 1].name := ws[|ws| - 1].content]
  }

  /** Every region is written, warned about or skipped silently, never more than one of these. */
  lemma {:induction false} WritesBound(regions: seq<Json>)
    ensures |Writes(regions)| + |Warnings(regions)| <= |regions|
    ensures |Writes(regions)| + |Warnings(regions)| == |regions| <==>
      forall i :: 0 <= i < |regions| ==> !Classify(regions[i]).SkipSilently?
  {
    if regions != [] {
      var init := regions[..|regions| - 1];
      WritesBound(init);
      assert forall i :: 0 <= i < |init| ==> init[i] == regions[i];
    }
  }

  /** The loop processes the regions in order: the writes of a concatenation concatenate. */
  lemma {:induction false} WritesAppend(xs: seq<Json>, ys: seq<Json>)
    ensures Writes(xs + ys) == Writes(xs) + Writes(ys)
    decreases |ys|
  {
    if ys == [] {
      assert xs + ys == xs;
    } else {
      var init, last := ys[..|ys| - 1], ys[|ys| - 1];
      WritesAppend(xs, init);
      assert (xs + ys)[..|xs + ys| - 1] == xs + init;
      assert (xs + ys)[|xs + ys| - 1] == last;
      var tail := if Classify(last).Write? then [FileWrite(Classify(last).fileName, last)] else [];
      assert Writes(ys) == Writes(init) + tail;
      assert Writes(xs + ys) == Writes(xs + init) + tail;
    }
  }

  /** The warnings of a concatenation concatenate as well. */
  lemma {:induction false} WarningsAppend(xs: seq<Json>, ys: seq<Json>)
    ensures Warnings(xs + ys) == Warnings(xs) + Warnings(ys)
    decreases |ys|
  {
    if ys == [] {
      assert xs + ys == xs;
    } else {
      var init := ys[..|ys| - 1];
      WarningsAppend(xs, init);
      assert (xs + ys)[..|xs + ys| - 1] == xs + init;
      assert (xs + ys)[|xs + ys| - 1] == ys[|ys| - 1];
    }
  }

  /** A skipped region contributes no write, and the loop continues with the next one. */
  lemma SkipContinues(xs: seq<Json>, region: Json, ys: seq<Json>)
    requires !Classify(region).Write?
    ensures Writes(xs + [region] + ys) == Writes(xs) + Writes(ys)
    ensures Classify(region).SkipSilently? ==> Warnings(xs + [region] + ys) == Warnings(xs) + Warnings(ys)
  {
    SingleRegion(region);
    WritesAppend(xs, [region]);
    assert Writes(xs + [region]) == Writes(xs);
    WritesAppend(xs + [region], ys);
    if Classify(region).SkipSilently? {
      WarningsAppend(xs, [region]);
      assert Warnings(xs + [region]) == Warnings(xs);
      WarningsAppend(xs + [region], ys);
    }
  }

  /** Handling region `i` extends the writes and the warnings of the regions before it by that region's own. */
  lemma RegionStep(regions: seq<Json>, i: int)
    requires 0 <= i < |regions|
    ensures Writes(regions[..i + 1]) == Writes(regions[..i]) +
      if Classify(regions[i]).Write? then [FileWrite(Classify(regions[i]).fileName, regions[i])] else []
    ensures Warnings(regions[..i + 1]) == Warnings(regions[..i]) +
      if Classify(regions[i]).SkipWithWarning? then [Classify(regions[i]).shown] else []
  {
    assert regions[..i + 1] == regions[..i] + [regions[i]];
    WritesAppend(regions[..i], [regions[i]]);
    WarningsAppend(regions[..i], [regions[i]]);
    SingleRegion(regions[i]);
  }

  /** One more write updates the file map at its name. */
  lemma ApplyWritesSnoc(files: map<string, Json>, ws: seq<FileWrite>, w: FileWrite)
    ensures ApplyWrites(files, ws + [w]) == ApplyWrites(files, ws)[w.name := w.content]
  {
    assert (ws + [w])[..|ws|] == ws;
  }

  lemma SingleRegion(region: Json)
    ensures Writes([region]) == if Classify(region).Write? then [FileWrite(Classify(region).fileName, region)] else []
    ensures Warnings([region]) == if Classify(region).SkipWithWarning? then [Classify(region).shown] else []
  {
    assert [region][..0] == [];
  }

  /** Each write stores the region unchanged under its slug's file name. */
  lemma {:induction false} WritesAreAcceptedRegions(regions: seq<Json>, k: int)
    requires 0 <= k < |Writes(regions)|
    ensures exists i :: 0 <= i < |regions| && Classify(regions[i]) == Write(Writes(regions)[k].name)
                        && Writes(regions)[k].content == regions[i]
  {
    var init := regions[..|regions| - 1];
    if k < |Writes(init)| {
      WritesAreAcceptedRegions(init, k);
      var i :| 0 <= i < |init| && Classify(init[i]) == Write(Writes(init)[k].name) && Writes(init)[k].content == init[i];
      assert regions[i] == init[i];
    } else {
      assert Classify(regions[|regions| - 1]) == Write(Writes(regions)[k].name);
    }
  }

  /** Writing touches only the named files; every other file keeps its content. */
  lemma {:induction false} ApplyWritesFrame(files: map<string, Json>, ws: seq<FileWrite>)
    ensures ApplyWrites(files, ws).Keys == files.Keys + set w | w in ws :: w.name
    ensures forall n :: n in files && (forall w :: w in ws ==> w.name != n) ==> ApplyWrites(files, ws)[n] == files[n]
  {
    if ws != [] {
      var init := ws[..|ws| - 1];
      ApplyWritesFrame(files, init);
      assert forall w :: w in ws <==> w in init || w == ws[|ws| - 1];
    }
  }

  /** The last write to a file name decides its content: a later region with a repeated slug overwrites. */
  lemma {:induction false} LastWriteWins(files: map<string, Json>, ws: seq<FileWrite>, k: int)
    requires 0 <= k < |ws|
    requires forall j :: k < j < |ws| ==> ws[j].name != ws[k].name
    ensures ws[k].name in ApplyWrites(files, ws)
    ensures ApplyWrites(files, ws)[ws[k].name] == ws[k].content
  {
    if k < |ws| - 1 {
      LastWriteWins(files, ws[..|ws| - 1], k);
    }
  }

  /** There are never more written files than writes. */
  lemma {:induction false} FileCountAtMostWrites(ws: seq<FileWrite>)
    ensures |ApplyWrites(map[], ws)| <= |ws|
  {
    if ws != [] {
      FileCountAtMostWrites(ws[..|ws| - 1]);
      var before := ApplyWrites(map[], ws[..|ws| - 1]);
      assert ApplyWrites(map[], ws).Keys == before.Keys + {ws[|ws| - 1].name};
    }
  }

  /** Distinct slugs give distinct file names. */
  lemma FileNameInjective(a: string, b: string)
    requires FileName(a) == FileName(b)
    ensures a == b
  {
    assert a == FileName(a)[..|a|];
  }

  /** Two regions with the same slug: both writes are counted, one file remains, holding the later region. */
  lemma RepeatedSlugExample()
    ensures
      var first := JObj(map["slug" := JStr("ncr"), "region" := JStr("NCR")]);
      var second := JObj(map["slug" := JStr("ncr"), "region" := JStr("National Capital Region")]);
      var ws := Writes([first, second]);
      |ws| == 2 && ApplyWrites(map[], ws) == map["ncr.json" := second]
  {
    var first := JObj(map["slug" := JStr("ncr"), "region" := JStr("NCR")]);
    var second := JObj(map["slug" := JStr("ncr"), "region" := JStr("National Capital Region")]);
    assert FileName("ncr") == "ncr.json";
    assert Member(first, "slug") == Some(JStr("ncr"));
    assert Member(second, "slug") == Some(JStr("ncr"));
    assert [first, second][..1] == [first];
    SingleRegion(first);
    var ws := Writes([first, second]);
    assert ws == [FileWrite("ncr.json", first), FileWrite("ncr.json", second)];
    assert ws[..1] == [FileWrite("ncr.json", first)];
    assert ws[..1][..0] == [];
    assert ApplyWrites(map[], ws[..1]) == map["ncr.json" := first];
    assert ApplyWrites(map[], ws) == map["ncr.json" := first]["ncr.json" := second];
  }

  /** The output directory: whether it exists and the JSON value in each file. */
  class OutputDir {
    var dirExists: bool
    var files: map<string, Json>

    ghost predicate Valid()
      reads this
    {
      !dirExists ==> files == map[]
    }

    constructor (dirExists: bool, files: map<string, Json>)
      requires !dirExists ==> files == map[]
      ensures Valid() && this.dirExists == dirExists && this.files == files
    {
      this.dirExists := dirExists;
      this.files := files;
    }

    /** `ensureDir`: creates the directory when it is missing. */
    method Ensure()
      requires Valid()
      modifies this
      ensures Valid() && dirExists && files == old(files)
    {
      if !dirExists {
        dirExists := true;
      }
    }

    /** `writeJson`: writes one file, replacing any earlier content. */
    method WriteFile(name: string, content: Json)
      requires Valid() && dirExists
      modifies this
      ensures Valid() && dirExists && files == old(files)[name := content]
    {
      files := files[name := content];
    }
  }

  /** The `for (const region of regions)` loop: returns the `written` counter and the warnings. */
  method SplitRegions(regions: seq<Json>, out: OutputDir) returns (written: nat, warnings: seq<Json>)
    requires out.Valid() && out.dirExists
    modifies out
    ensures out.Valid() && out.dirExists
    ensures out.files == ApplyWrites(old(out.files), Writes(regions))
    ensures written == |Writes(regions)| && written <= |regions|
    ensures warnings == Warnings(regions)
  {
    written, warnings := 0, [];
    var i := 0;
    while i < |regions|
      invariant 0 <= i <= |regions|
      invariant out.Valid() && out.dirExists
      invariant out.files == ApplyWrites(old(out.files), Writes(regions[..i]))
      invariant written == |Writes(regions[..i])|
      invariant warnings == Warnings(regions[..i])
    {
      var region := regions[i];
      RegionStep(regions, i);
      match Classify(region) {
        case SkipSilently =>
          assert Writes(regions[..i + 1]) == Writes(regions[..i]);
          assert Warnings(regions[..i + 1]) == Warnings(regions[..i]);
        case SkipWithWarning(shown) =>
          assert Writes(regions[..i + 1]) == Writes(regions[..i]);
          assert Warnings(regions[..i + 1]) == Warnings(regions[..i]) + [shown];
          warnings := warnings + [shown];
        case Write(name) =>
          assert Writes(regions[..i + 1]) == Writes(regions[..i]) + [FileWrite(name, region)];
          assert Warnings(regions[..i + 1]) == Warnings(regions[..i]);
          ApplyWritesSnoc(old(out.files), Writes(regions[..i]), FileWrite(name, region));
          out.WriteFile(name, region);
          written := written + 1;
      }
      i := i + 1;
    }
    assert regions[..i] == regions;
    WritesBound(regions);
  }

  /**
   What the script finds at the input path: no file, a file that exists but
   cannot be read (`readFileSync` throws, so Node exits with status 1), a file
   `JSON.parse` rejects, or the parsed value.
   */
  datatype InputFile = Missing | Unreadable | Unparseable | Parsed(value: Json)

  /** `process.exit(1)` or normal completion with the `written` count. */
  datatype Exit = ExitFailure | Completed(written: nat)

  /** `main`: the validation branches, the directory creation and the loop. */
  method Run(input: InputFile, out: OutputDir) returns (status: Exit, warnings: seq<Json>)
    requires out.Valid()
    modifies out
    ensures out.Valid()
    ensures input.Missing? ==>
              status == ExitFailure && out.dirExists == old(out.dirExists) && out.files == old(out.files) && warnings == []
    ensures !input.Missing? ==> out.dirExists
    ensures (input.Unreadable? || input.Unparseable? || (input.Parsed? && !input.value.JArr?)) ==>
              status == ExitFailure && out.files == old(out.files) && warnings == []
    ensures input.Parsed? && input.value.JArr? ==>
              && status == Completed(|Writes(input.value.items)|)
              && out.files == ApplyWrites(old(out.files), Writes(input.value.items))
              && warnings == Warnings(input.value.items)
  {
    warnings := [];
    if input.Missing? {
      return ExitFailure, warnings;
    }
    out.Ensure();
    if input.Unreadable? || input.Unparseable? {
      return ExitFailure, warnings;
    }
    if !input.value.JArr? {
      return ExitFailure, warnings;
    }
    var written;
    written, warnings := SplitRegions(input.value.items, out);
    status := Completed(written);
  }
}
