/** The navigation bar: the load and export buttons, the previous / next arrows with the
    image counter, and one thumbnail per loaded image. It holds no state; each enabled
    button reports one action. */
module Navigation {
  import opened Types
  import Store

  datatype Button = LoadFolder | LoadImage | ExportZip | Prev | Next | Thumbnail(index: int)

  /** What a click asks the editor to do. */
  datatype Action = OpenFolderPicker | OpenImagePicker | StartExport | NavigateTo(index: int)

  predicate HasPrev(currentIndex: int)
  {
    currentIndex > 0
  }

  predicate HasNext(currentIndex: int, count: nat)
  {
    currentIndex < count - 1
  }

  /** The arrows, the counter and the thumbnails appear only once an image is loaded,
      one thumbnail per image. */
  predicate Shown(b: Button, count: nat)
  {
    match b
    case Prev => count > 0
    case Next => count > 0
    case Thumbnail(k) => 0 <= k < count
    case _ => true
  }

  /** Every button is disabled while an export runs; export needs an image, and each
      arrow needs a neighbour in its direction. */
  predicate Disabled(b: Button, count: nat, currentIndex: int, exporting: bool)
  {
    match b
    case LoadFolder => exporting
    case LoadImage => exporting
    case ExportZip => count == 0 || exporting
    case Prev => !HasPrev(currentIndex) || exporting
    case Next => !HasNext(currentIndex, count) || exporting
    case Thumbnail(_) => exporting
  }

  /** What clicking a button does: nothing when it is absent or disabled. */
  function Click(b: Button, count: nat, currentIndex: int, exporting: bool): (r: Option<Action>)
    ensures r.Some? <==> Shown(b, count) && !Disabled(b, count, currentIndex, exporting)
    ensures b == Prev && r.Some? ==> currentIndex > 0 && r.value == NavigateTo(currentIndex - 1)
    ensures b == Next && r.Some? ==> currentIndex < count - 1 && r.value == NavigateTo(currentIndex + 1)
    ensures b.Thumbnail? && r.Some? ==> r.value == NavigateTo(b.index)
  {
    if !Shown(b, count) || Disabled(b, count, currentIndex, exporting) then None
    else
      match b
      case LoadFolder => Some(OpenFolderPicker)
      case LoadImage => Some(OpenImagePicker)
      case ExportZip => Some(StartExport)
      case Prev => Some(NavigateTo(currentIndex - 1))
      case Next => Some(NavigateTo(currentIndex + 1))
      case Thumbnail(k) => Some(NavigateTo(k))
  }

  /** The counter reads `currentIndex + 1 / count`, and only when an image is loaded. */
  function Counter(count: nat, currentIndex: int): (r: Option<(int, nat)>)
    ensures r.Some? <==> count > 0
    ensures r.Some? && 0 <= currentIndex < count ==> 1 <= r.value.0 <= r.value.1 == count
  {
    if count > 0 then Some((currentIndex + 1, count)) else None
  }

  /** The caption under the thumbnails: the current image's name, or nothing when the
      index is outside the list. */
  function Caption(images: seq<ImageFile>, currentIndex: int): (r: Option<string>)
    ensures r.Some? <==> 0 <= currentIndex < |images|
    ensures r.Some? ==> r.value == images[currentIndex].name
  {
    if 0 <= currentIndex < |images| then Some(images[currentIndex].name) else None
  }

  /** After any navigation the bar reports, the caption names the image navigated to. */
  lemma {:induction false} CaptionFollowsNavigation(s: Store.EditorState, b: Button, exporting: bool)
    requires 0 <= s.currentIndex < |s.images|
    requires Click(b, |s.images|, s.currentIndex, exporting).Some?
    requires Click(b, |s.images|, s.currentIndex, exporting).value.NavigateTo?
    ensures
      var t := Click(b, |s.images|, s.currentIndex, exporting).value.index;
      var r := Store.Navigate(s, t);
      Caption(r.images, r.currentIndex) == Some(s.images[t].name)
  {
    TargetsStayInRange(s, b, exporting);
  }

  /** Nothing can be clicked while an export runs. */
  lemma ExportingDisablesAll(b: Button, count: nat, currentIndex: int)
    ensures Click(b, count, currentIndex, true).None?
  {
  }

  /** Export cannot start without images. */
  lemma NoExportWithoutImages(currentIndex: int, exporting: bool)
    ensures Click(ExportZip, 0, currentIndex, exporting).None?
  {
  }

  /** Every navigation the bar reports, from an index inside the list, lands inside the
      list; so after the editor navigates there, there is a current image. */
  lemma {:induction false} TargetsStayInRange(s: Store.EditorState, b: Button, exporting: bool)
    requires 0 <= s.currentIndex < |s.images|
    requires Click(b, |s.images|, s.currentIndex, exporting).Some?
    requires Click(b, |s.images|, s.currentIndex, exporting).value.NavigateTo?
    ensures
      var t := Click(b, |s.images|, s.currentIndex, exporting).value.index;
      && 0 <= t < |s.images|
      && Store.CurrentImage(Store.Navigate(s, t)) == Some(s.images[t])
  {
    var t := Click(b, |s.images|, s.currentIndex, exporting).value.index;
    assert b.Prev? || b.Next? || b.Thumbnail?;
  }

  /** The arrows move by one and undo each other: next then previous returns to the
      image it started from. */
  lemma {:induction false} NextThenPrevReturns(count: nat, i: int)
    requires 0 <= i && Click(Next, count, i, false).Some?
    ensures
      var j := Click(Next, count, i, false).value.index;
      && Click(Prev, count, j, false).Some?
      && Click(Prev, count, j, false).value == NavigateTo(i)
  {
    var j := Click(Next, count, i, false).value.index;
    assert j == i + 1;
  }

  /** Without an export running, a neighbour exists in a direction exactly when its arrow
      reports a move: the arrows are disabled at the first and the last image. */
  lemma {:induction false} ArrowsAtTheEnds(count: nat, i: int)
    requires 0 <= i < count
    ensures Click(Prev, count, i, false).Some? <==> i > 0
    ensures Click(Next, count, i, false).Some? <==> i < count - 1
  {
  }
}
