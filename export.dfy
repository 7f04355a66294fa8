/** The batch export: every loaded image is rendered in turn; a failure is reported
    and skipped, a success is stored in the archive folder under a name derived from
    the image's file name, and `processed` counts the successes. */
module Export {
  import opened Types
  import opened Geometry
  import opened Compositor
  import Store

  // ---------------------------------------------------------------- entry names

  /** `name.split('.')` with its last part popped, joined back with '.': everything before
      the last dot, or nothing when there is no dot. */
  function BaseName(name: string): (b: string)
  {
    match LastDot(name)
    case None => ""
    case Some(i) => name[..i]
  }

  const Suffix: string := "_watermarked.png"

  /** The archive entry an image is stored under. */
  function EntryName(name: string): (e: string)
    ensures |e| >= |Suffix| && e[|e| - |Suffix|..] == Suffix
  {
    BaseName(name) + Suffix
  }

  /** The base name is characterised by the split: a name with a dot is its base name,
      a dot and a dot-free extension; a name without a dot has an empty base name. */
  lemma BaseNameSplits(name: string)
    ensures '.' !in name ==> BaseName(name) == ""
    ensures '.' in name ==> exists ext :: '.' !in ext && name == BaseName(name) + "." + ext
  {
    if '.' in name {
      var i := LastDot(name).value;
      assert name == name[..i] + "." + name[i + 1..];
    }
  }

  /** Any split of a name into a prefix, a dot and a dot-free extension has the base name
      as its prefix. */
  lemma {:induction false} BaseNameUnique(base: string, ext: string)
    requires '.' !in ext
    ensures BaseName(base + "." + ext) == base
  {
    var name := base + "." + ext;
    var i := LastDot(name).value;
    assert name[|base|] == '.';
    assert name[..|base|] == base;
  }

  /** `a.b.jpg` keeps its inner dot. */
  lemma EntryNameInnerDot()
    ensures EntryName("a.b.jpg") == "a.b_watermarked.png"
  {
    InnerDotBase();
    InnerDotEntry();
  }

  lemma InnerDotBase()
    ensures BaseName("a.b.jpg") == "a.b"
  {
    InnerDotName();
    BaseNameUnique("a.b", "jpg");
  }

  lemma InnerDotName()
    ensures "a.b" + "." + "jpg" == "a.b.jpg"
  {
  }

  lemma InnerDotEntry()
    ensures "a.b" + Suffix == "a.b_watermarked.png"
  {
  }

  /** A name without a dot has an empty base name. */
  lemma EntryNameNoDot()
    ensures EntryName("photo") == "_watermarked.png"
  {
    BaseNameSplits("photo");
  }

  /** `a.png` and `a.jpg` are stored under the same entry. */
  lemma EntryNamesCollide()
    ensures EntryName("a.png") == EntryName("a.jpg")
  {
    assert "a" + "." + "png" == "a.png";
    assert "a" + "." + "jpg" == "a.jpg";
    BaseNameUnique("a", "png");
    BaseNameUnique("a", "jpg");
  }

  // ---------------------------------------------------------------- the archive

  /** The folder inside the archive every output is stored in. */
  const FolderName: string := "watermarked-images"

  /** A folder of the archive; storing a name twice replaces the earlier entry. */
  class ZipFolder {
    var entries: map<string, Raster>

    constructor ()
      ensures entries == map[]
    {
      entries := map[];
    }

    method File(name: string, blob: Raster)
      modifies this
      ensures entries == old(entries)[name := blob]
    {
      entries := entries[name := blob];
    }
  }

  /** What the export tells the user. */
  datatype ExportOutcome =
    | NothingToExport                                       // "No images to export"
    | ExportFailed                                          // "Export failed"
    | Exported(archive: map<string, Raster>, processed: nat, failed: seq<string>)

  /** The browser's answers for one export: the preview canvas (fit variant), what each
      image does when rendered, which watermark images decode, and whether the archive
      folder and the archive itself are created. */
  datatype ExportEnv = ExportEnv(
    preview: Option<(Extent, Extent)>,
    perImage: seq<ImageEnv>,
    overlays: map<string, NativeSize>,
    folderOk: bool,
    archiveOk: bool)

  /** What rendering one image gives: the image's own watermark list (empty when it
      has none) composited under the export's environment. */
  function RenderOf(v: Variant, env: ExportEnv, marks: map<string, seq<WatermarkSettings>>, img: ImageFile, ie: ImageEnv)
    : Result<Raster, RenderError>
  {
    RenderSpec(v, env.preview, ie, Store.WatermarksOf(marks, img.id), env.overlays)
  }

  /** The render result of every image, in order. */
  function Results(v: Variant, env: ExportEnv, marks: map<string, seq<WatermarkSettings>>, images: seq<ImageFile>)
    : (rs: seq<Result<Raster, RenderError>>)
    requires |env.perImage| == |images|
    ensures |rs| == |images|
    ensures forall i :: 0 <= i < |images| ==> rs[i] == RenderOf(v, env, marks, images[i], env.perImage[i])
  {
    seq(|images|, i requires 0 <= i < |images| => RenderOf(v, env, marks, images[i], env.perImage[i]))
  }

  /** The entries the loop stores, in image order: one per image that renders, named
      after the image. */
  function Outputs(names: seq<string>, rs: seq<Result<Raster, RenderError>>): (out: seq<(string, Raster)>)
    requires |names| == |rs|
    ensures |out| <= |rs|
    decreases |rs|
  {
    if rs == [] then []
    else
      var n := |rs| - 1;
      Outputs(names[..n], rs[..n]) + (if rs[n].Success? then [(EntryName(names[n]), rs[n].value)] else [])
  }

  /** The names of the images that fail, in order. */
  function Failed(names: seq<string>, rs: seq<Result<Raster, RenderError>>): (out: seq<string>)
    requires |names| == |rs|
    ensures |out| <= |rs|
    decreases |rs|
  {
    if rs == [] then []
    else
      var n := |rs| - 1;
      Failed(names[..n], rs[..n]) + (if rs[n].Failure? then [names[n]] else [])
  }

  /** One more image extends the outputs and the failures by its own contribution. */
  lemma OutputsStep(names: seq<string>, rs: seq<Result<Raster, RenderError>>, i: nat)
    requires |names| == |rs| && i < |rs|
    ensures Outputs(names[..i + 1], rs[..i + 1])
         == Outputs(names[..i], rs[..i]) + (if rs[i].Success? then [(EntryName(names[i]), rs[i].value)] else [])
    ensures Failed(names[..i + 1], rs[..i + 1])
         == Failed(names[..i], rs[..i]) + (if rs[i].Failure? then [names[i]] else [])
  {
    assert names[..i + 1][..i] == names[..i];
    assert rs[..i + 1][..i] == rs[..i];
  }

  /** The display names of the images. */
  function NamesOf(images: seq<ImageFile>): (names: seq<string>)
    ensures |names| == |images|
    ensures forall i :: 0 <= i < |images| ==> names[i] == images[i].name
  {
    seq(|images|, i requires 0 <= i < |images| => images[i].name)
  }

  /** The names of the stored entries. */
  function Names(out: seq<(string, Raster)>): set<string>
    decreases |out|
  {
    if out == [] then {} else Names(out[..|out| - 1]) + {out[|out| - 1].0}
  }

  /** There are never more names than entries written (fewer when names collide). */
  lemma {:induction false} NamesBound(out: seq<(string, Raster)>)
    ensures |Names(out)| <= |out|
    decreases |out|
  {
    if out != [] {
      var n := |out| - 1;
      NamesBound(out[..n]);
      assert |Names(out[..n]) + {out[n].0}| <= |Names(out[..n])| + 1;
    }
  }

  /** The folder after storing `out` in order. */
  function Stored(folder: map<string, Raster>, out: seq<(string, Raster)>): map<string, Raster>
    decreases |out|
  {
    if out == [] then folder
    else
      var n := |out| - 1;
      Stored(folder, out[..n])[out[n].0 := out[n].1]
  }

  /** The stored folder holds exactly the earlier names and the names written, and each
      written name maps to the last output stored under it. */
  lemma {:induction false} StoredKeys(folder: map<string, Raster>, out: seq<(string, Raster)>)
    ensures Stored(folder, out).Keys == folder.Keys + Names(out)
    ensures out != [] ==> Stored(folder, out)[out[|out| - 1].0] == out[|out| - 1].1
    decreases |out|
  {
    if out != [] {
      StoredKeys(folder, out[..|out| - 1]);
    }
  }

  /** Storing one more entry overwrites (or adds) its name. */
  lemma StoredStep(folder: map<string, Raster>, out: seq<(string, Raster)>, e: (string, Raster))
    ensures Stored(folder, out + [e]) == Stored(folder, out)[e.0 := e.1]
  {
    assert (out + [e])[..|out|] == out;
  }

  /** The outcome of an export: nothing to do, the archive could not be made, or the
      archive with the successes stored and the failures listed. */
  function ExportSpec(v: Variant, env: ExportEnv, images: seq<ImageFile>, marks: map<string, seq<WatermarkSettings>>)
    : ExportOutcome
    requires |env.perImage| == |images|
  {
    if images == [] then NothingToExport
    else if !env.folderOk || !env.archiveOk then ExportFailed
    else
      var names, rs := NamesOf(images), Results(v, env, marks, images);
      var out := Outputs(names, rs);
      Exported(Stored(map[], out), |out|, Failed(names, rs))
  }

  /** One iteration's render: the image's watermarks, or none, composited. */
  method RenderOne(v: Variant, env: ExportEnv, marks: map<string, seq<WatermarkSettings>>, images: seq<ImageFile>, i: nat)
    returns (blob: Result<Raster, RenderError>)
    requires |env.perImage| == |images| && i < |images|
    ensures blob == Results(v, env, marks, images)[i]
  {
    var watermarks := Store.WatermarksOf(marks, images[i].id);
    blob := RenderImage(v, env.preview, env.perImage[i], watermarks, env.overlays);
  }

  /** `handleExport`: nothing to export, the archive folder, the loop, the archive. */
  method ExportAll(v: Variant, env: ExportEnv, images: seq<ImageFile>, marks: map<string, seq<WatermarkSettings>>)
    returns (r: ExportOutcome)
    requires |env.perImage| == |images|
    ensures r == ExportSpec(v, env, images, marks)
  {
    if images == [] {
      return NothingToExport;
    }
    if !env.folderOk {
      return ExportFailed;
    }
    var folder := new ZipFolder();
    var processed, failed := ExportLoop(v, env, images, marks, folder);
    if !env.archiveOk {
      return ExportFailed;
    }
    r := Exported(folder.entries, processed, failed);
  }

  /** One image's outcome: a success is stored under its entry name and counted, a
      failure is added to the reported names. */
  method Keep(folder: ZipFolder, name: string, blob: Result<Raster, RenderError>, processed: nat, failed: seq<string>,
              ghost out: seq<(string, Raster)>)
    returns (processed': nat, failed': seq<string>)
    requires processed == |out| && folder.entries == Stored(map[], out)
    modifies folder
    ensures var added := if blob.Success? then [(EntryName(name), blob.value)] else [];
      && processed' == |out + added|
      && folder.entries == Stored(map[], out + added)
    ensures failed' == failed + (if blob.Failure? then [name] else [])
  {
    if blob.Success? {
      var entry := EntryName(name);
      StoredStep(map[], out, (entry, blob.value));
      folder.File(entry, blob.value);
      processed', failed' := processed + 1, failed;
    } else {
      assert out + [] == out;
      processed', failed' := processed, failed + [name];
    }
  }

  /** The loop over the images with its per-image catch: a success is stored in the
      folder and counted, a failure is reported and skipped. */
  method ExportLoop(v: Variant, env: ExportEnv, images: seq<ImageFile>, marks: map<string, seq<WatermarkSettings>>,
                    folder: ZipFolder)
    returns (processed: nat, failed: seq<string>)
    requires |env.perImage| == |images| && folder.entries == map[]
    modifies folder
    ensures
      var names, rs := NamesOf(images), Results(v, env, marks, images);
      && processed == |Outputs(names, rs)|
      && folder.entries == Stored(map[], Outputs(names, rs))
      && failed == Failed(names, rs)
  {
    ghost var names, rs := NamesOf(images), Results(v, env, marks, images);
    processed, failed := 0, [];
    for i := 0 to |images|
      invariant processed == |Outputs(names[..i], rs[..i])|
      invariant folder.entries == Stored(map[], Outputs(names[..i], rs[..i]))
      invariant failed == Failed(names[..i], rs[..i])
    {
      var blob := RenderOne(v, env, marks, images, i);
      OutputsStep(names, rs, i);
      processed, failed := Keep(folder, images[i].name, blob, processed, failed, Outputs(names[..i], rs[..i]));
    }
    assert names[..|images|] == names;
    assert rs[..|images|] == rs;
  }

  // ---------------------------------------------------------------- properties

  /** Every image either renders or is reported: successes and failures add up to the
      number of images, so `processed` never exceeds the total. */
  lemma {:induction false} SuccessesPlusFailures(names: seq<string>, rs: seq<Result<Raster, RenderError>>)
    requires |names| == |rs|
    ensures |Outputs(names, rs)| + |Failed(names, rs)| == |rs|
    decreases |rs|
  {
    if rs != [] {
      var n := |rs| - 1;
      SuccessesPlusFailures(names[..n], rs[..n]);
    }
  }

  /** A failure is isolated: the outputs of a batch are the outputs of its parts, so a
      failing image changes nothing stored for the images before or after it. */
  lemma {:induction false} OutputsSplit(na: seq<string>, ra: seq<Result<Raster, RenderError>>,
                                        nb: seq<string>, rb: seq<Result<Raster, RenderError>>)
    requires |na| == |ra| && |nb| == |rb|
    ensures Outputs(na + nb, ra + rb) == Outputs(na, ra) + Outputs(nb, rb)
    ensures Failed(na + nb, ra + rb) == Failed(na, ra) + Failed(nb, rb)
  {
    StoredOutputsSplit(na, ra, nb, rb);
    FailedSplit(na, ra, nb, rb);
  }

  /** What one image adds to the stored entries. */
  function Stores(name: string, r: Result<Raster, RenderError>): seq<(string, Raster)>
  {
    if r.Success? then [(EntryName(name), r.value)] else []
  }

  /** What one image adds to the reported failures. */
  function Reports(name: string, r: Result<Raster, RenderError>): seq<string>
  {
    if r.Failure? then [name] else []
  }

  lemma OutputsSnoc(names: seq<string>, rs: seq<Result<Raster, RenderError>>, name: string, r: Result<Raster, RenderError>)
    requires |names| == |rs|
    ensures Outputs(names + [name], rs + [r]) == Outputs(names, rs) + Stores(name, r)
    ensures Failed(names + [name], rs + [r]) == Failed(names, rs) + Reports(name, r)
  {
    assert (names + [name])[..|names|] == names;
    assert (rs + [r])[..|rs|] == rs;
  }

  lemma {:induction false} StoredOutputsSplit(na: seq<string>, ra: seq<Result<Raster, RenderError>>,
                                              nb: seq<string>, rb: seq<Result<Raster, RenderError>>)
    requires |na| == |ra| && |nb| == |rb|
    ensures Outputs(na + nb, ra + rb) == Outputs(na, ra) + Outputs(nb, rb)
    decreases |rb|
  {
    if rb == [] {
      assert na + nb == na && ra + rb == ra;
    } else {
      var n := |rb| - 1;
      var nb', rb' := nb[..n], rb[..n];
      assert nb == nb' + [nb[n]] && rb == rb' + [rb[n]];
      AppendAssoc(na, nb', [nb[n]]);
      AppendAssoc(ra, rb', [rb[n]]);
      calc {
        Outputs(na + nb, ra + rb);
        { OutputsSnoc(na + nb', ra + rb', nb[n], rb[n]); }
        Outputs(na + nb', ra + rb') + Stores(nb[n], rb[n]);
        { StoredOutputsSplit(na, ra, nb', rb'); }
        (Outputs(na, ra) + Outputs(nb', rb')) + Stores(nb[n], rb[n]);
        { AppendAssoc(Outputs(na, ra), Outputs(nb', rb'), Stores(nb[n], rb[n])); }
        Outputs(na, ra) + (Outputs(nb', rb') + Stores(nb[n], rb[n]));
        { OutputsSnoc(nb', rb', nb[n], rb[n]); }
        Outputs(na, ra) + Outputs(nb, rb);
      }
    }
  }

  lemma {:induction false} FailedSplit(na: seq<string>, ra: seq<Result<Raster, RenderError>>,
                                       nb: seq<string>, rb: seq<Result<Raster, RenderError>>)
    requires |na| == |ra| && |nb| == |rb|
    ensures Failed(na + nb, ra + rb) == Failed(na, ra) + Failed(nb, rb)
    decreases |rb|
  {
    if rb == [] {
      assert na + nb == na && ra + rb == ra;
    } else {
      var n := |rb| - 1;
      var nb', rb' := nb[..n], rb[..n];
      assert nb == nb' + [nb[n]] && rb == rb' + [rb[n]];
      AppendAssoc(na, nb', [nb[n]]);
      AppendAssoc(ra, rb', [rb[n]]);
      calc {
        Failed(na + nb, ra + rb);
        { OutputsSnoc(na + nb', ra + rb', nb[n], rb[n]); }
        Failed(na + nb', ra + rb') + Reports(nb[n], rb[n]);
        { FailedSplit(na, ra, nb', rb'); }
        (Failed(na, ra) + Failed(nb', rb')) + Reports(nb[n], rb[n]);
        { AppendAssoc(Failed(na, ra), Failed(nb', rb'), Reports(nb[n], rb[n])); }
        Failed(na, ra) + (Failed(nb', rb') + Reports(nb[n], rb[n]));
        { OutputsSnoc(nb', rb', nb[n], rb[n]); }
        Failed(na, ra) + Failed(nb, rb);
      }
    }
  }

  /** An export of a non-empty batch that completes reports exactly the successes as
      processed and never more than the total; the archive holds one entry per distinct
      entry name, so colliding names (`a.png`, `a.jpg`) keep only the later output. */
  lemma {:induction false} ExportCounts(v: Variant, env: ExportEnv, images: seq<ImageFile>, marks: map<string, seq<WatermarkSettings>>)
    requires |env.perImage| == |images| && images != [] && env.folderOk && env.archiveOk
    ensures ExportSpec(v, env, images, marks).Exported?
    ensures
      var r := ExportSpec(v, env, images, marks);
      && r.processed + |r.failed| == |images|
      && |r.archive| <= r.processed
  {
    var names, rs := NamesOf(images), Results(v, env, marks, images);
    SuccessesPlusFailures(names, rs);
    var out := Outputs(names, rs);
    StoredKeys(map[], out);
    NamesBound(out);
  }

  /** Three images where only the second fails: the first and third are stored, in
      that order, and only the second is reported. */
  lemma ThreeImagesSecondFails(names: seq<string>, rs: seq<Result<Raster, RenderError>>)
    requires |names| == 3 && |rs| == 3
    requires rs[0].Success? && rs[1].Failure? && rs[2].Success?
    ensures Outputs(names, rs) == [(EntryName(names[0]), rs[0].value), (EntryName(names[2]), rs[2].value)]
    ensures Failed(names, rs) == [names[1]]
  {
    var e0, e2 := (EntryName(names[0]), rs[0].value), (EntryName(names[2]), rs[2].value);
    assert names[..0] == [] && rs[..0] == [];
    OutputsStep(names, rs, 0);
    assert Outputs(names[..1], rs[..1]) == [e0] && Failed(names[..1], rs[..1]) == [];
    OutputsStep(names, rs, 1);
    assert Outputs(names[..2], rs[..2]) == [e0] && Failed(names[..2], rs[..2]) == [names[1]];
    OutputsStep(names, rs, 2);
    assert Outputs(names[..3], rs[..3]) == [e0] + [e2];
    assert names[..3] == names && rs[..3] == rs;
  }
}
