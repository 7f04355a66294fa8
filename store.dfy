/** The editor's state and its handlers: the loaded images, the current index, the
    per-image watermark lists (list order is z-order) and the selected watermark.
    Every handler builds the next state from the previous one and reports what the
    user is told. Both editor copies share these handlers word for word. */
module Store {
  import opened Types

  /** What a handler tells the user. */
  datatype Notice =
    | Silent
    | Loaded(count: nat)            // "Loaded n images"
    | Added(count: nat)             // "Added n image(s)"
    | CopiedTo(others: int)          // "Watermarks copied to n images"
    | NoImagesFound                 // "No images found in folder"
    | NoCurrentImage                // "Load an image first"
    | NothingToCopy                 // "Add watermarks first"

  datatype EditorState = EditorState(
    images: seq<ImageFile>,
    currentIndex: int,
    watermarks: map<string, seq<WatermarkSettings>>,
    selected: Option<int>)

  datatype Step = Step(state: EditorState, notice: Notice)

  /** A fresh id and object URL, the values the browser mints for each accepted file. */
  datatype Fresh = Fresh(id: string, url: string)

  const Initial: EditorState := EditorState([], 0, map[], None)

  predicate IsImageFile(f: InputFile)
  {
    |f.mimeType| >= 6 && f.mimeType[..6] == "image/"
  }

  /** `images[currentIndex] || null`. */
  function CurrentImage(s: EditorState): (r: Option<ImageFile>)
    ensures r.Some? <==> 0 <= s.currentIndex < |s.images|
    ensures r.Some? ==> r.value == s.images[s.currentIndex]
  {
    if 0 <= s.currentIndex < |s.images| then Some(s.images[s.currentIndex]) else None
  }

  /** `imageWatermarks.get(id) || []`. */
  function WatermarksOf(m: map<string, seq<WatermarkSettings>>, id: string): (ws: seq<WatermarkSettings>)
    ensures id !in m ==> ws == []
    ensures id in m ==> ws == m[id]
  {
    if id in m then m[id] else []
  }

  /** The list the editor shows: the current image's, or none without a current image. */
  function CurrentWatermarks(s: EditorState): (ws: seq<WatermarkSettings>)
    ensures CurrentImage(s).None? ==> ws == []
  {
    match CurrentImage(s)
    case None => []
    case Some(img) => WatermarksOf(s.watermarks, img.id)
  }

  function Ids(images: seq<ImageFile>): set<string>
  {
    set i | 0 <= i < |images| :: images[i].id
  }

  /** The state every handler keeps: a selection names an entry of the current list,
      and only loaded images carry watermark lists. */
  ghost predicate Valid(s: EditorState)
  {
    && (s.selected.Some? ==> CurrentImage(s).Some? && 0 <= s.selected.value < |CurrentWatermarks(s)|)
    && s.watermarks.Keys <= Ids(s.images)
  }

  // ---------------------------------------------------------------- loading images

  /** The accepted files, each paired with its fresh id and URL, in picker order. */
  function Accept(files: seq<InputFile>, minted: seq<Fresh>): (imgs: seq<ImageFile>)
    requires |minted| == |files|
    ensures |imgs| <= |files|
    ensures forall i :: 0 <= i < |imgs| ==> IsImageFile(imgs[i].file) && imgs[i].name == imgs[i].file.name
  {
    if files == [] then []
    else
      var rest := Accept(files[1..], minted[1..]);
      if IsImageFile(files[0])
      then [ImageFile(minted[0].id, files[0], minted[0].url, files[0].name)] + rest
      else rest
  }

  /** The accepted files are exactly the image files, in order. */
  function ImageFilesOf(files: seq<InputFile>): seq<InputFile>
  {
    if files == [] then []
    else (if IsImageFile(files[0]) then [files[0]] else []) + ImageFilesOf(files[1..])
  }

  lemma {:induction false} AcceptKeepsImageFiles(files: seq<InputFile>, minted: seq<Fresh>)
    requires |minted| == |files|
    ensures |Accept(files, minted)| == |ImageFilesOf(files)|
    ensures forall i :: 0 <= i < |Accept(files, minted)| ==> Accept(files, minted)[i].file == ImageFilesOf(files)[i]
  {
    if files != [] {
      var accepted, images := Accept(files[1..], minted[1..]), ImageFilesOf(files[1..]);
      AcceptKeepsImageFiles(files[1..], minted[1..]);
      if IsImageFile(files[0]) {
        var img := ImageFile(minted[0].id, files[0], minted[0].url, files[0].name);
        assert Accept(files, minted) == [img] + accepted;
        assert ImageFilesOf(files) == [files[0]] + images;
        forall i | 0 <= i < |Accept(files, minted)| ensures Accept(files, minted)[i].file == ImageFilesOf(files)[i] {
          if i > 0 {
            assert Accept(files, minted)[i] == accepted[i - 1];
          }
        }
      } else {
        assert Accept(files, minted) == accepted;
        assert ImageFilesOf(files) == [] + images;
      }
    }
  }

  /** Loading a folder replaces the images and resets everything else; with no image
      file in it, nothing changes. */
  function LoadFolder(s: EditorState, files: seq<InputFile>, minted: seq<Fresh>): (r: Step)
    requires |minted| == |files|
    ensures Accept(files, minted) == [] ==> r == Step(s, NoImagesFound)
    ensures Accept(files, minted) != [] ==>
      r == Step(EditorState(Accept(files, minted), 0, map[], None), Loaded(|Accept(files, minted)|))
  {
    var imgs := Accept(files, minted);
    if imgs == [] then Step(s, NoImagesFound)
    else Step(EditorState(imgs, 0, map[], None), Loaded(|imgs|))
  }

  /** Adding images appends the accepted ones after the existing images; the index is
      reset to 0 only when there were none. Nothing else changes. */
  function AddImages(s: EditorState, files: seq<InputFile>, minted: seq<Fresh>): (r: Step)
    requires |minted| == |files|
    ensures Accept(files, minted) == [] ==> r == Step(s, Silent)
    ensures Accept(files, minted) != [] ==>
      && r.state.images == s.images + Accept(files, minted)
      && r.state.currentIndex == (if s.images == [] then 0 else s.currentIndex)
      && r.state.watermarks == s.watermarks && r.state.selected == s.selected
      && r.notice == Added(|Accept(files, minted)|)
  {
    var imgs := Accept(files, minted);
    if imgs == [] then Step(s, Silent)
    else
      var index := if |s.images| == 0 then 0 else s.currentIndex;
      Step(s.(images := s.images + imgs, currentIndex := index), Added(|imgs|))
  }

  /** Navigating moves to `index` and clears the selection. */
  function Navigate(s: EditorState, index: int): (r: EditorState)
    ensures r.currentIndex == index && r.selected == None
    ensures r.images == s.images && r.watermarks == s.watermarks
  {
    s.(currentIndex := index, selected := None)
  }

  // ---------------------------------------------------------------- watermark list edits

  /** The watermark that the add buttons create. */
  function NewWatermark(kind: Kind): (w: WatermarkSettings)
    ensures w.kind == kind
    ensures w.text == (if kind == Text then "Watermark" else "")
    ensures w == DefaultWatermark.(kind := kind, text := w.text)
  {
    DefaultWatermark.(kind := kind, text := if kind == Text then "Watermark" else "")
  }

  /** Adding appends a new watermark to the current image's list and selects it;
      without a current image it reports an error and changes nothing. */
  function AddWatermark(s: EditorState, kind: Kind): (r: Step)
    ensures CurrentImage(s).None? ==> r == Step(s, NoCurrentImage)
    ensures CurrentImage(s).Some? ==>
      var id := CurrentImage(s).value.id;
      && r.notice == Silent
      && r.state.images == s.images && r.state.currentIndex == s.currentIndex
      && r.state.watermarks == s.watermarks[id := CurrentWatermarks(s) + [NewWatermark(kind)]]
      && r.state.selected == Some(|CurrentWatermarks(s)|)
  {
    match CurrentImage(s)
    case None => Step(s, NoCurrentImage)
    case Some(img) =>
      var existing := WatermarksOf(s.watermarks, img.id);
      Step(s.(watermarks := s.watermarks[img.id := existing + [NewWatermark(kind)]],
              selected := Some(|CurrentWatermarks(s)|)), Silent)
  }

  /** A partial update: each present field replaces the stored one. */
  datatype Patch = Patch(
    kind: Option<Kind> := None,
    text: Option<string> := None,
    fontFamily: Option<string> := None,
    fontSize: Option<real> := None,
    color: Option<string> := None,
    opacity: Option<real> := None,
    rotation: Option<real> := None,
    x: Option<real> := None,
    y: Option<real> := None,
    imageUrl: Option<string> := None,
    imageName: Option<string> := None)

  function Pick<T>(o: Option<T>, old_: T): T
  {
    match o
    case Some(v) => v
    case None => old_
  }

  /** A field after a spread: the patch's value when it carries one, the old value
      otherwise. */
  predicate Overrides<T(==)>(patched: Option<T>, before: T, after: T)
  {
    (patched.Some? ==> after == patched.value) && (patched.None? ==> after == before)
  }

  /** `{ ...w, ...patch }`: every field the patch carries replaces the stored one, every
      other field (and the alignment, which no patch carries) keeps its value. */
  function Merge(w: WatermarkSettings, p: Patch): (r: WatermarkSettings)
    ensures p == Patch() ==> r == w
    ensures Overrides(p.kind, w.kind, r.kind) && Overrides(p.text, w.text, r.text)
    ensures Overrides(p.fontFamily, w.fontFamily, r.fontFamily) && Overrides(p.fontSize, w.fontSize, r.fontSize)
    ensures Overrides(p.color, w.color, r.color) && Overrides(p.opacity, w.opacity, r.opacity)
    ensures Overrides(p.rotation, w.rotation, r.rotation)
    ensures Overrides(p.x, w.x, r.x) && Overrides(p.y, w.y, r.y)
    ensures r.alignment == w.alignment
    ensures p.imageUrl.Some? ==> r.imageUrl == p.imageUrl
    ensures p.imageUrl.None? ==> r.imageUrl == w.imageUrl
    ensures p.imageName.Some? ==> r.imageName == p.imageName
    ensures p.imageName.None? ==> r.imageName == w.imageName
  {
    WatermarkSettings(
      Pick(p.kind, w.kind), Pick(p.text, w.text), Pick(p.fontFamily, w.fontFamily),
      Pick(p.fontSize, w.fontSize), Pick(p.color, w.color), Pick(p.opacity, w.opacity),
      Pick(p.rotation, w.rotation), Pick(p.x, w.x), Pick(p.y, w.y), w.alignment,
      if p.imageUrl.Some? then p.imageUrl else w.imageUrl,
      if p.imageName.Some? then p.imageName else w.imageName)
  }

  /** Merging the same patch twice is merging it once. */
  lemma MergeIdempotent(w: WatermarkSettings, p: Patch)
    ensures Merge(Merge(w, p), p) == Merge(w, p)
  {
  }

  /** Updating merges the patch into entry `index` of the current list only; every other
      entry and every other image's list is unchanged. Without a current image nothing
      happens. */
  function UpdateWatermark(s: EditorState, index: int, p: Patch): (r: EditorState)
    ensures CurrentImage(s).None? ==> r == s
    ensures CurrentImage(s).Some? ==>
      var id := CurrentImage(s).value.id;
      var ws := CurrentWatermarks(s);
      && r.images == s.images && r.currentIndex == s.currentIndex && r.selected == s.selected
      && r.watermarks.Keys == s.watermarks.Keys + {id}
      && (forall k :: k in s.watermarks && k != id ==> r.watermarks[k] == s.watermarks[k])
      && |r.watermarks[id]| == |ws|
      && (forall i :: 0 <= i < |ws| && i != index ==> r.watermarks[id][i] == ws[i])
      && (0 <= index < |ws| ==> r.watermarks[id][index] == Merge(ws[index], p))
  {
    match CurrentImage(s)
    case None => s
    case Some(img) =>
      var existing := WatermarksOf(s.watermarks, img.id);
      var updated := if 0 <= index < |existing| then existing[index := Merge(existing[index], p)] else existing;
      s.(watermarks := s.watermarks[img.id := updated])
  }

  /** Deleting removes exactly entry `index`, keeps the others in order and clears the
      selection. Without a current image nothing happens. */
  function DeleteWatermark(s: EditorState, index: int): (r: EditorState)
    ensures CurrentImage(s).None? ==> r == s
    ensures CurrentImage(s).Some? ==>
      var id := CurrentImage(s).value.id;
      var ws := CurrentWatermarks(s);
      && r.images == s.images && r.currentIndex == s.currentIndex && r.selected == None
      && r.watermarks.Keys == s.watermarks.Keys + {id}
      && (forall k :: k in s.watermarks && k != id ==> r.watermarks[k] == s.watermarks[k])
      && (0 <= index < |ws| ==> r.watermarks[id] == ws[..index] + ws[index + 1..])
      && (!(0 <= index < |ws|) ==> r.watermarks[id] == ws)
  {
    match CurrentImage(s)
    case None => s
    case Some(img) =>
      var existing := WatermarksOf(s.watermarks, img.id);
      s.(watermarks := s.watermarks[img.id := RemoveAt(existing, index)], selected := None)
  }

  /** `existing.filter((_, i) => i !== index)`, written as the filter is. */
  function RemoveAt<T>(ws: seq<T>, index: int): (r: seq<T>)
    ensures 0 <= index < |ws| ==> r == ws[..index] + ws[index + 1..]
    ensures !(0 <= index < |ws|) ==> r == ws
    decreases |ws|
  {
    if ws == [] then []
    else if index == 0 then ws[1..]
    else
      var rest := RemoveAt(ws[1..], index - 1);
      assert 0 <= index < |ws| ==> ws[1..][..index - 1] + ws[1..][index..] == ws[1..index] + ws[index + 1..];
      [ws[0]] + rest
  }

  /** Copying to all images: every other loaded image gets the current list; the current
      image's list stays. Without a current image or with an empty list it reports an
      error and changes nothing. */
  function BatchCopy(s: EditorState): (r: Step)
    ensures CurrentImage(s).None? || CurrentWatermarks(s) == [] ==> r == Step(s, NothingToCopy)
    ensures CurrentImage(s).Some? && CurrentWatermarks(s) != [] ==>
      && r.notice == CopiedTo(|s.images| - 1)
      && r.state == s.(watermarks := CopyToOthers(s.watermarks, s.images, CurrentImage(s).value.id, CurrentWatermarks(s)))
  {
    if CurrentImage(s).None? || CurrentWatermarks(s) == [] then Step(s, NothingToCopy)
    else
      var cur := CurrentImage(s).value.id;
      Step(s.(watermarks := CopyToOthers(s.watermarks, s.images, cur, CurrentWatermarks(s))),
           CopiedTo(|s.images| - 1))
  }

  /** The `images.forEach` of the copy: each image whose id differs from `cur` is set to
      `ws`, in image order; every other key keeps its list. */
  function CopyToOthers(m: map<string, seq<WatermarkSettings>>, images: seq<ImageFile>, cur: string, ws: seq<WatermarkSettings>)
    : (r: map<string, seq<WatermarkSettings>>)
    ensures r.Keys == m.Keys + (Ids(images) - {cur})
    ensures forall k :: k in Ids(images) && k != cur ==> r[k] == ws
    ensures forall k :: k in m && !(k in Ids(images) && k != cur) ==> r[k] == m[k]
    decreases |images|
  {
    if images == [] then m
    else
      var last := images[|images| - 1];
      var before := CopyToOthers(m, images[..|images| - 1], cur, ws);
      assert Ids(images) == Ids(images[..|images| - 1]) + {last.id} by {
        forall k | k in Ids(images) ensures k in Ids(images[..|images| - 1]) + {last.id} {
          var i :| 0 <= i < |images| && images[i].id == k;
          if i < |images| - 1 { assert images[..|images| - 1][i] == images[i]; }
        }
      }
      if last.id != cur then before[last.id := ws] else before
  }

  /** Attaching a picked image to the selected watermark sets its source and label; it
      acts only when a file was picked, it is an image, and a watermark is selected. */
  function AttachImage(s: EditorState, file: Option<InputFile>, url: string): (r: EditorState)
    ensures file.None? || !IsImageFile(file.value) || s.selected.None? ==> r == s
    ensures file.Some? && IsImageFile(file.value) && s.selected.Some? ==>
      r == UpdateWatermark(s, s.selected.value, Patch(imageUrl := Some(url), imageName := Some(file.value.name)))
  {
    if file.None? || !IsImageFile(file.value) || s.selected.None? then s
    else UpdateWatermark(s, s.selected.value, Patch(imageUrl := Some(url), imageName := Some(file.value.name)))
  }

  /** A selection reported by the canvas or the list: the selection is replaced. */
  function Select(s: EditorState, index: Option<int>): (r: EditorState)
    ensures r.selected == index && r.(selected := s.selected) == s
  {
    s.(selected := index)
  }

  // ---------------------------------------------------------------- properties

  lemma InitialValid()
    ensures Valid(Initial)
  {
  }

  /** The invariant holds after every handler (a selection from the canvas or the list
      always names an entry of the shown list). */
  lemma {:induction false} HandlersPreserveValid(s: EditorState, files: seq<InputFile>, minted: seq<Fresh>,
                                                  index: int, kind: Kind, p: Patch, file: Option<InputFile>, url: string)
    requires Valid(s) && |minted| == |files|
    ensures Valid(LoadFolder(s, files, minted).state)
    ensures Valid(AddImages(s, files, minted).state)
    ensures Valid(Navigate(s, index))
    ensures Valid(AddWatermark(s, kind).state)
    ensures Valid(UpdateWatermark(s, index, p))
    ensures Valid(DeleteWatermark(s, index))
    ensures Valid(BatchCopy(s).state)
    ensures Valid(AttachImage(s, file, url))
    ensures 0 <= index < |CurrentWatermarks(s)| ==> Valid(Select(s, Some(index)))
  {
    LoadFolderValid(s, files, minted);
    AddImagesValid(s, files, minted);
    NavigateValid(s, index);
    AddWatermarkValid(s, kind);
    UpdateValid(s, index, p);
    DeleteValid(s, index);
    BatchCopyValid(s);
    AttachValid(s, file, url);
    if 0 <= index < |CurrentWatermarks(s)| {
      SelectValid(s, index);
    }
  }

  lemma LoadFolderValid(s: EditorState, files: seq<InputFile>, minted: seq<Fresh>)
    requires Valid(s) && |minted| == |files|
    ensures Valid(LoadFolder(s, files, minted).state)
  {
  }

  lemma NavigateValid(s: EditorState, index: int)
    requires Valid(s)
    ensures Valid(Navigate(s, index))
  {
  }

  lemma AttachValid(s: EditorState, file: Option<InputFile>, url: string)
    requires Valid(s)
    ensures Valid(AttachImage(s, file, url))
  {
    if file.Some? && IsImageFile(file.value) && s.selected.Some? {
      UpdateValid(s, s.selected.value, Patch(imageUrl := Some(url), imageName := Some(file.value.name)));
    }
  }

  lemma SelectValid(s: EditorState, index: int)
    requires Valid(s) && 0 <= index < |CurrentWatermarks(s)|
    ensures Valid(Select(s, Some(index)))
  {
  }

  lemma IdsAppend(a: seq<ImageFile>, b: seq<ImageFile>)
    ensures Ids(a) <= Ids(a + b)
  {
    forall k | k in Ids(a) ensures k in Ids(a + b) {
      var i :| 0 <= i < |a| && a[i].id == k;
      assert (a + b)[i] == a[i];
    }
  }

  lemma AddImagesValid(s: EditorState, files: seq<InputFile>, minted: seq<Fresh>)
    requires Valid(s) && |minted| == |files|
    ensures Valid(AddImages(s, files, minted).state)
  {
    var imgs := Accept(files, minted);
    if imgs != [] {
      var r := AddImages(s, files, minted).state;
      IdsAppend(s.images, imgs);
      if s.selected.Some? {
        assert (s.images + imgs)[s.currentIndex] == s.images[s.currentIndex];
        assert CurrentWatermarks(r) == CurrentWatermarks(s);
      }
    }
  }

  lemma CurrentInIds(s: EditorState)
    requires CurrentImage(s).Some?
    ensures CurrentImage(s).value.id in Ids(s.images)
  {
  }

  lemma AddWatermarkValid(s: EditorState, kind: Kind)
    requires Valid(s)
    ensures Valid(AddWatermark(s, kind).state)
  {
    if CurrentImage(s).Some? {
      CurrentInIds(s);
    }
  }

  lemma UpdateValid(s: EditorState, index: int, p: Patch)
    requires Valid(s)
    ensures Valid(UpdateWatermark(s, index, p))
  {
    if CurrentImage(s).Some? {
      CurrentInIds(s);
    }
  }

  lemma DeleteValid(s: EditorState, index: int)
    requires Valid(s)
    ensures Valid(DeleteWatermark(s, index))
  {
    if CurrentImage(s).Some? {
      CurrentInIds(s);
    }
  }

  lemma BatchCopyValid(s: EditorState)
    requires Valid(s)
    ensures Valid(BatchCopy(s).state)
  {
    if CurrentImage(s).Some? && CurrentWatermarks(s) != [] {
      var r := BatchCopy(s).state;
      var cur := CurrentImage(s).value.id;
      assert CurrentImage(r) == CurrentImage(s);
      if cur in s.watermarks {
        assert r.watermarks[cur] == s.watermarks[cur];
      }
    }
  }

  /** Adding a watermark and then deleting the selected (new) one restores the list. */
  lemma {:induction false} AddThenDeleteRestores(s: EditorState, kind: Kind)
    requires CurrentImage(s).Some?
    ensures
      var added := AddWatermark(s, kind).state;
      var id := CurrentImage(s).value.id;
      DeleteWatermark(added, added.selected.value).watermarks[id] == CurrentWatermarks(s)
  {
    var added := AddWatermark(s, kind).state;
    var ws := CurrentWatermarks(s);
    assert CurrentImage(added) == CurrentImage(s);
    assert CurrentWatermarks(added) == ws + [NewWatermark(kind)];
    assert (ws + [NewWatermark(kind)])[..|ws|] == ws;
  }

  /** The copy is by value: after copying, editing the copy on another image leaves the
      current image's list as it was. */
  lemma {:induction false} CopiesAreIndependent(s: EditorState, other: int, index: int, p: Patch)
    requires CurrentImage(s).Some? && CurrentWatermarks(s) != []
    requires 0 <= other < |s.images| && s.images[other].id != CurrentImage(s).value.id
    ensures
      var copied := BatchCopy(s).state;
      var edited := UpdateWatermark(Navigate(copied, other), index, p);
      var cur := CurrentImage(s).value.id;
      && CurrentWatermarks(Navigate(copied, other)) == CurrentWatermarks(s)
      && WatermarksOf(edited.watermarks, cur) == CurrentWatermarks(s)
  {
    var copied := BatchCopy(s).state;
    var cur := CurrentImage(s).value.id;
    var oid := s.images[other].id;
    assert oid in Ids(s.images);
    assert copied.watermarks[oid] == CurrentWatermarks(s);
    if cur in s.watermarks {
      assert copied.watermarks[cur] == s.watermarks[cur];
    }
  }

  /** Copying twice is copying once. */
  lemma BatchCopyIdempotent(s: EditorState)
    ensures BatchCopy(BatchCopy(s).state).state == BatchCopy(s).state
  {
    var once := BatchCopy(s).state;
    if CurrentImage(s).Some? && CurrentWatermarks(s) != [] {
      var cur := CurrentImage(s).value.id;
      assert CurrentImage(once) == CurrentImage(s);
      assert CurrentWatermarks(once) == CurrentWatermarks(s) by {
        if cur in s.watermarks { assert once.watermarks[cur] == s.watermarks[cur]; }
      }
      CopyTwiceIsOnce(s.watermarks, s.images, cur, CurrentWatermarks(s));
    }
  }

  /** Copying the same list to the same images again changes no entry. */
  lemma CopyTwiceIsOnce(m: map<string, seq<WatermarkSettings>>, images: seq<ImageFile>, cur: string, ws: seq<WatermarkSettings>)
    ensures CopyToOthers(CopyToOthers(m, images, cur, ws), images, cur, ws) == CopyToOthers(m, images, cur, ws)
  {
    var once := CopyToOthers(m, images, cur, ws);
    var twice := CopyToOthers(once, images, cur, ws);
    assert twice.Keys == once.Keys;
    forall k | k in twice ensures twice[k] == once[k] {
      if !(k in Ids(images) && k != cur) {
        assert twice[k] == once[k];
      }
    }
  }

  /** An update with the same patch applied twice equals one update. */
  lemma UpdateIdempotent(s: EditorState, index: int, p: Patch)
    ensures UpdateWatermark(UpdateWatermark(s, index, p), index, p) == UpdateWatermark(s, index, p)
  {
    var once := UpdateWatermark(s, index, p);
    if CurrentImage(s).Some? {
      var id := CurrentImage(s).value.id;
      var ws := CurrentWatermarks(s);
      assert CurrentImage(once) == CurrentImage(s);
      if 0 <= index < |ws| {
        MergeIdempotent(ws[index], p);
        assert once.watermarks[id][index := Merge(once.watermarks[id][index], p)] == once.watermarks[id];
      }
    }
  }
}
