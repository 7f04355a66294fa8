# Watermark-Studio, modelled in Dafny

Watermark-Studio is a browser editor that places text and image watermarks on a batch of
images and exports the results as a ZIP archive. This project models its core and proves
properties of that model:

- **Types** (`types.dfy`): the watermark settings record, images and fonts, the default
  watermark and the system fonts.
- **Geometry** (`geometry.dfy`): the fit-to-viewport scale of the preview, the placement of
  a watermark from its percentages, the drag-end inverse, and the two export-time maps
  into native pixels.
- **Store** (`store.dfy`): the editor's state and its handlers (load a folder, add images,
  navigate, add / update / delete a watermark, copy to all images, attach a watermark
  image). Each handler is one atomic transition from state to state, with the message
  the user is shown. The two editor copies share these handlers word for word.
- **Compositor** (`compositor.dfy`): `renderImageWithWatermarks`, as a method that drives a
  2D-context class. The fit variant (`components/watermark`) inverts the preview
  transform. The native variant (`components/ui`) takes percentages of the native size.
  Pixels are abstracted to the ordered draw commands the context receives.
- **Export** (`export.dfy`): the `handleExport` loop over the images, with its
  per-image catch, a ZIP-folder class, and the entry-name rule.
- **PreviewCanvas** (`canvas.dfy`): the interactive Fabric canvas, as a class with its
  objects, the index-to-object registry, the active object and the event-muting flag.
  It covers the rebuild effect, the background, and the selection and drag events.
- **Controls** (`controls.dfy`): the settings panel. It covers what is shown, the events
  each control emits, the slider ranges, the opacity percentage, and the custom-font test.
- **Navigation** (`navigation.dfy`): the navigation bar. It covers the guards of each
  button, the navigation targets and the counter.
- **Fonts** (`fonts.dfy`): the fonts hook. It covers `fileToFontName` (each regular
  expression rewritten as a local rule on characters), `getFontFormat`, and the manifest
  loop, as a method of a class holding the hook's state.

Outside services are inputs to the model:

- the browser's image decoding and encoding;
- fresh ids and object URLs;
- the font loads;
- the manifest request.

## Model

| member | source | states |
|---|---|---|
| Types.LastDot | Watermark-Studio/src/components/watermark/WatermarkEditor.tsx:322-324 | the last '.' of a name, if any: there is none exactly when the name has no dot, and none follows it |
| Types.DefaultWatermarkInRanges | Watermark-Studio/src/types/watermark.ts:44-55 | the default is a text watermark reading `Watermark`, at (50, 50), unrotated, centred; its opacity and its size 48 lie in the panel ranges both as text and as an image |
| Types.SystemFontsWellFormed | Watermark-Studio/src/types/watermark.ts:35-42 | six system fonts, each with name equal to family and no file |
| Geometry.Fit | Watermark-Studio/src/components/watermark/WatermarkEditor.tsx:203-206 | the fit scale is positive, keeps both axes within 90% of the viewport and fills one of them exactly |
| Geometry.FitIsLargest | Watermark-Studio/src/components/watermark/WatermarkEditor.tsx:203-206 | every scale that keeps both axes within the margin is at most the fit scale (it is the maximum) |
| Geometry.PreviewScale | Watermark-Studio/src/components/watermark/WatermarkEditor.tsx:199-206 | the export's preview scale is positive and fits the image in the viewport, with zero extents falling back to 800 x 600 |
| Geometry.BackgroundScale | Watermark-Studio/src/components/ui/ImageCanvas.tsx:130-136 | the background's scale is positive even for zero extents |
| Geometry.BackgroundMatchesPreviewScale | Watermark-Studio/src/components/ui/ImageCanvas.tsx:130-136 | for every decoded image, the preview's background scale equals the scale the export recomputes |
| Geometry.PercentToPixel | Watermark-Studio/src/components/ui/ImageCanvas.tsx:173-174 | 0%, 50% and 100% land on the start, the centre and the end of the extent |
| Geometry.PixelToPercent | Watermark-Studio/src/components/ui/ImageCanvas.tsx:100-101 | the drag-end percentage maps back to the pixel it came from |
| Geometry.PercentRoundTrip | Watermark-Studio/src/components/ui/ImageCanvas.tsx:100-101 | placement followed by the drag-end inverse returns the percentage, for every non-zero extent |
| Geometry.NativeToPreview | Watermark-Studio/src/components/ui/ImageCanvas.tsx:138-143 | the fitted background shows the native centre at the viewport centre |
| Geometry.ExportPointFit | Watermark-Studio/src/components/watermark/WatermarkEditor.tsx:236-245 | the fit export maps a percentage to the native pixel that the preview shows under it; 50% maps to the native centre |
| Geometry.ExportInvertsPreview | Watermark-Studio/src/components/watermark/WatermarkEditor.tsx:236-245 | a native pixel shown in the preview, read back as a percentage, maps back to itself |
| Geometry.ExportPointNative | Watermark-Studio/src/components/ui/WatermarkEditor.tsx:209-210 | the native export takes the percentage of the native extent; 50% is the centre |
| Geometry.ExportSizeFit | Watermark-Studio/src/components/watermark/WatermarkEditor.tsx:254 | a preview size carried to native pixels shows at its preview size once the preview scale is applied, and stays positive |
| Geometry.AxisAgreesIffCentre | Watermark-Studio/src/components/watermark/WatermarkEditor.tsx:236-245 | on one axis the two export variants agree exactly when the percentage is 50 |
| Geometry.VariantsAgreeIffCentred | Watermark-Studio/src/components/watermark/WatermarkEditor.tsx:236-245 | for every viewport and image, the two variants place a watermark at the same native pixel exactly when it sits at (50, 50) |
| Geometry.WorkedExample | Watermark-Studio/src/components/watermark/WatermarkEditor.tsx:199-254 | an 800 x 600 viewport and a 1600 x 1200 image give scale 0.45; the centre lands on native (800, 600), a 48 px font becomes 48 / 0.45, and the variants differ at 0% |
| Store.CurrentWatermarks | Watermark-Studio/src/components/watermark/WatermarkEditor.tsx:27-29 | without a current image the shown list is empty |
| Store.Accept | Watermark-Studio/src/components/watermark/WatermarkEditor.tsx:40-55 | only image files are accepted, each named after its file, never more than were offered |
| Store.IsImageFile | Watermark-Studio/src/components/watermark/WatermarkEditor.tsx:40-42 | a file is accepted when its type starts with `image/` |
| Store.ImageFilesOf | Watermark-Studio/src/components/watermark/WatermarkEditor.tsx:40-42 | the image files in order; AcceptKeepsImageFiles ties it to Accept |
| Store.AcceptKeepsImageFiles | Watermark-Studio/src/components/watermark/WatermarkEditor.tsx:40-42 | the accepted images are exactly the files whose type starts with `image/`, in order |
| Store.LoadFolder | Watermark-Studio/src/components/watermark/WatermarkEditor.tsx:39-63 | with no image file nothing changes and an error is reported; otherwise the images are replaced, the index reset to 0, the lists and the selection cleared |
| Store.AddImages | Watermark-Studio/src/components/watermark/WatermarkEditor.tsx:65-86 | the accepted images are appended; the index is reset only when there were none; lists and selection stay; with no image file nothing changes |
| Store.Navigate | Watermark-Studio/src/components/watermark/WatermarkEditor.tsx:88-91 | moves to the index and clears the selection, keeping images and lists |
| Store.NewWatermark | Watermark-Studio/src/components/watermark/WatermarkEditor.tsx:99-103 | the default watermark of the requested kind, reading `Watermark` for text and nothing for an image |
| Store.AddWatermark | Watermark-Studio/src/components/watermark/WatermarkEditor.tsx:93-117 | without a current image an error and no change; otherwise the new watermark is appended to the current list only and selected |
| Store.Merge | Watermark-Studio/src/components/watermark/WatermarkEditor.tsx:126 | every field the patch carries (kind, text, font, size, colour, opacity, rotation, x, y, source, label) replaces the stored one, every field it omits keeps the stored one, the alignment is always kept, and the empty patch changes nothing |
| Store.MergeIdempotent | Watermark-Studio/src/components/watermark/WatermarkEditor.tsx:126 | merging a patch twice is merging it once |
| Store.UpdateWatermark | Watermark-Studio/src/components/watermark/WatermarkEditor.tsx:119-130 | only entry `index` of the current list changes, by the merge; every other entry and every other image's list stays; without a current image nothing changes |
| Store.DeleteWatermark | Watermark-Studio/src/components/watermark/WatermarkEditor.tsx:132-144 | exactly entry `index` is removed and the rest keep their order; the current image gets a list (the key set grows by that image only), every other image keeps its own list, and the selection is cleared |
| Store.RemoveAt | Watermark-Studio/src/components/watermark/WatermarkEditor.tsx:138 | the index filter removes exactly that entry when it exists and nothing otherwise |
| Store.BatchCopy | Watermark-Studio/src/components/watermark/WatermarkEditor.tsx:146-164 | without a current image or with an empty list an error and no change; otherwise the copy, reporting `images.length - 1` |
| Store.CopyToOthers | Watermark-Studio/src/components/watermark/WatermarkEditor.tsx:152-161 | every other loaded image gets the current list; the current image and unloaded keys keep theirs |
| Store.AttachImage | Watermark-Studio/src/components/watermark/WatermarkEditor.tsx:170-181 | a picked image file sets the selected watermark's source and label; no file, a non-image or no selection changes nothing |
| Store.Select | Watermark-Studio/src/components/watermark/WatermarkEditor.tsx:375 | a reported selection replaces the selection and nothing else |
| Store.InitialValid | Watermark-Studio/src/components/watermark/WatermarkEditor.tsx:13-16 | the initial state satisfies the editor invariant |
| Store.HandlersPreserveValid | Watermark-Studio/src/components/watermark/WatermarkEditor.tsx:39-181 | every handler keeps the invariant: a selection names an entry of the shown list and only loaded images carry lists |
| Store.AddThenDeleteRestores | Watermark-Studio/src/components/watermark/WatermarkEditor.tsx:93-144 | adding a watermark and deleting the selected one restores the list |
| Store.CopiesAreIndependent | Watermark-Studio/src/components/watermark/WatermarkEditor.tsx:156 | after copying, editing a copy on another image leaves the source image's list unchanged |
| Store.BatchCopyIdempotent | Watermark-Studio/src/components/watermark/WatermarkEditor.tsx:146-164 | copying twice is copying once |
| Store.CopyTwiceIsOnce | Watermark-Studio/src/components/watermark/WatermarkEditor.tsx:152-160 | giving every other image the same list a second time changes no entry |
| Store.UpdateIdempotent | Watermark-Studio/src/components/watermark/WatermarkEditor.tsx:119-130 | the same update applied twice equals one update |
| Compositor.FrameOf | Watermark-Studio/src/components/watermark/WatermarkEditor.tsx:199-206 | the replayed preview frame has a positive scale that fits the image in the viewport |
| Compositor.Anchor | Watermark-Studio/src/components/watermark/WatermarkEditor.tsx:236-245 | a watermark at (50, 50) is anchored at the native centre in both variants |
| Compositor.OutputSize | Watermark-Studio/src/components/watermark/WatermarkEditor.tsx:254 | the native variant keeps a size; the fit variant divides it by the preview scale |
| Compositor.ShapeOf | Watermark-Studio/src/components/watermark/WatermarkEditor.tsx:252-275 | text is always drawn at its output size; an image only when its source is non-empty and decodes, and then as that overlay scaled by its output size / 100 (the fit variant divides by the preview scale), centred on the origin |
| Compositor.PictureOf | Watermark-Studio/src/components/watermark/WatermarkEditor.tsx:266-269 | an overlay is drawn at its natural size times the scale |
| Compositor.AlphaOf | Watermark-Studio/src/components/watermark/WatermarkEditor.tsx:248 | the alpha in force is the opacity when it is in [0, 1] and is always in [0, 1] |
| Compositor.CommandsOf | Watermark-Studio/src/components/watermark/WatermarkEditor.tsx:247-277 | a watermark contributes one command when it draws something and none otherwise |
| Compositor.WatermarkCommands | Watermark-Studio/src/components/watermark/WatermarkEditor.tsx:234-278 | never more commands than watermarks |
| Compositor.RenderImage | Watermark-Studio/src/components/watermark/WatermarkEditor.tsx:183-292 | the draw loop yields exactly the specified output: a failed decode, a missing preview canvas, a missing context or a failed encode give their errors, in that order |
| Compositor.DrawWatermark | Watermark-Studio/src/components/watermark/WatermarkEditor.tsx:247-277 | one save / alpha / translate / rotate / draw / restore pass appends that watermark's commands and leaves the context as it was |
| Compositor.CommandsAppend | Watermark-Studio/src/components/watermark/WatermarkEditor.tsx:234-278 | rendering a concatenation of lists concatenates the renders |
| Compositor.CommandsAreIsolated | Watermark-Studio/src/components/watermark/WatermarkEditor.tsx:247-277 | the commands correspond one to one with the watermarks that draw something: command k draws drawable k's own shape, under exactly drawable k's own anchor translation and rotation, at drawable k's own alpha |
| Compositor.OneCommandPerDrawable | Watermark-Studio/src/components/watermark/WatermarkEditor.tsx:252-275 | one command per watermark that draws something |
| Compositor.SkippedWatermarkDrawsNothing | Watermark-Studio/src/components/watermark/WatermarkEditor.tsx:260-274 | an image watermark with no source, or one that fails to decode, can be removed without changing the output |
| Compositor.SilentWatermarkRemovable | Watermark-Studio/src/components/watermark/WatermarkEditor.tsx:234-278 | any watermark that contributes no command can be removed from the list without changing the commands |
| Compositor.RenderShapeOfOutput | Watermark-Studio/src/components/watermark/WatermarkEditor.tsx:217-228 | a render succeeds exactly when every browser step does; the output has the native size and starts with the untransformed base image; with no watermarks it is the base image alone |
| Compositor.RenderSpec | Watermark-Studio/src/components/watermark/WatermarkEditor.tsx:183-292 | the rendered raster or error as a function of the inputs, which RenderImage is proved to produce; RenderShapeOfOutput states its shape |
| Compositor.CentredTextLandsOnCentre | Watermark-Studio/src/components/watermark/WatermarkEditor.tsx:236-259 | a centred text watermark is drawn at the native centre, at its opacity, with its size carried by the variant |
| Export.EntryName | Watermark-Studio/src/components/watermark/WatermarkEditor.tsx:322-325 | every entry name ends in `_watermarked.png` |
| Export.BaseName | Watermark-Studio/src/components/watermark/WatermarkEditor.tsx:322-325 | everything before the last dot, or nothing without a dot; characterised by BaseNameSplits and BaseNameUnique |
| Export.BaseNameSplits | Watermark-Studio/src/components/watermark/WatermarkEditor.tsx:322-324 | a name with a dot is its base name, a dot and a dot-free extension; a name without one has an empty base name |
| Export.BaseNameUnique | Watermark-Studio/src/components/watermark/WatermarkEditor.tsx:322-324 | splitting off a dot-free extension always gives back the base name |
| Export.EntryNameInnerDot | Watermark-Studio/src/components/watermark/WatermarkEditor.tsx:322-325 | `a.b.jpg` is stored as `a.b_watermarked.png` |
| Export.EntryNameNoDot | Watermark-Studio/src/components/watermark/WatermarkEditor.tsx:322-325 | `photo` is stored as `_watermarked.png` |
| Export.EntryNamesCollide | Watermark-Studio/src/components/watermark/WatermarkEditor.tsx:322-327 | `a.png` and `a.jpg` are stored under the same entry |
| Export.ZipFolder.File | Watermark-Studio/src/components/watermark/WatermarkEditor.tsx:327 | storing a name adds or replaces that one entry |
| Export.Outputs | Watermark-Studio/src/components/watermark/WatermarkEditor.tsx:314-333 | never more stored outputs than images |
| Export.Failed | Watermark-Studio/src/components/watermark/WatermarkEditor.tsx:329-332 | never more failures than images |
| Export.OutputsStep | Watermark-Studio/src/components/watermark/WatermarkEditor.tsx:314-333 | one more image adds its own output or its own failure and nothing else |
| Export.OutputsSnoc | Watermark-Studio/src/components/watermark/WatermarkEditor.tsx:314-333 | one more image at the end adds exactly its stored output, or exactly its failure report |
| Export.StoredOutputsSplit | Watermark-Studio/src/components/watermark/WatermarkEditor.tsx:319-327 | the stored outputs of a batch are those of its first part followed by those of its second |
| Export.FailedSplit | Watermark-Studio/src/components/watermark/WatermarkEditor.tsx:329-332 | the failure reports of a batch are those of its first part followed by those of its second |
| Export.NamesBound | Watermark-Studio/src/components/watermark/WatermarkEditor.tsx:327 | never more distinct names than entries written |
| Export.StoredKeys | Watermark-Studio/src/components/watermark/WatermarkEditor.tsx:327 | the folder holds exactly the names written, the last write of a name winning |
| Export.StoredStep | Watermark-Studio/src/components/watermark/WatermarkEditor.tsx:327 | storing one more entry overwrites or adds its name |
| Export.RenderOne | Watermark-Studio/src/components/watermark/WatermarkEditor.tsx:315-320 | each iteration renders the image with its own list |
| Export.ExportAll | Watermark-Studio/src/components/watermark/WatermarkEditor.tsx:294-353 | no images: nothing to export; no folder or no archive: export failed; otherwise the archive of the successes, the count and the failures |
| Export.ExportSpec | Watermark-Studio/src/components/watermark/WatermarkEditor.tsx:294-353 | the outcome of an export as a function of the inputs, which ExportAll is proved to produce; ExportCounts states its counts |
| Export.Keep | Watermark-Studio/src/components/watermark/WatermarkEditor.tsx:319-332 | a success is stored under its entry name and counted; a failure is listed and skipped |
| Export.ExportLoop | Watermark-Studio/src/components/watermark/WatermarkEditor.tsx:311-333 | after the loop, `processed` counts the successes, the folder holds them in image order and the failures are listed |
| Export.SuccessesPlusFailures | Watermark-Studio/src/components/watermark/WatermarkEditor.tsx:311-333 | successes and failures add up to the number of images |
| Export.OutputsSplit | Watermark-Studio/src/components/watermark/WatermarkEditor.tsx:319-332 | a batch's outputs and failures are those of its parts, so a failure changes nothing for the images before or after it |
| Export.ExportCounts | Watermark-Studio/src/components/watermark/WatermarkEditor.tsx:311-346 | a completed export reports processed plus failed equal to the total and holds no more entries than successes |
| Export.ThreeImagesSecondFails | Watermark-Studio/src/components/watermark/WatermarkEditor.tsx:314-333 | with only the second of three failing, the first and third are stored in order and only the second is reported |
| Controls.SelectedWatermark | Watermark-Studio/src/components/watermark/ControlPanel.tsx:42 | a selected watermark exists exactly when the selection is an index inside the list |
| Controls.ControlsFor | Watermark-Studio/src/components/watermark/ControlPanel.tsx:134-298 | for a text watermark exactly the text input, the font list, the text size slider and the colour picker and input; for an image exactly the image picker and the scale slider; for both the opacity and rotation sliders, last |
| Controls.RowLabel | Watermark-Studio/src/components/watermark/ControlPanel.tsx:98 | a row reads its text, or its image name, or `Image` when that is missing or empty |
| Controls.View | Watermark-Studio/src/components/watermark/ControlPanel.tsx:82-130 | one row per watermark with the selected one highlighted, copy-to-all enabled exactly for a non-empty list, and settings exactly for a selected watermark |
| Controls.OneRowHighlighted | Watermark-Studio/src/components/watermark/ControlPanel.tsx:87 | at most one row is highlighted, and it is the selected watermark |
| Controls.RowClick | Watermark-Studio/src/components/watermark/ControlPanel.tsx:85 | clicking a row selects that row |
| Controls.DeleteClick | Watermark-Studio/src/components/watermark/ControlPanel.tsx:103-106 | the delete button reports only the delete, never a selection |
| Controls.CopyClick | Watermark-Studio/src/components/watermark/ControlPanel.tsx:118-122 | copy-to-all reports exactly when it is enabled |
| Controls.DeleteClearsSettings | Watermark-Studio/src/components/watermark/ControlPanel.tsx:103-106 | after a delete from the panel no settings are shown |
| Controls.Slide | Watermark-Studio/src/components/watermark/ControlPanel.tsx:207-211 | a slider reports a value within its range and passes through values already inside it |
| Controls.SizeRange | Watermark-Studio/src/components/watermark/ControlPanel.tsx:205-244 | the size slider ranges over 8..200 for text and 10..200 for images |
| Controls.OpacityPosition | Watermark-Studio/src/components/watermark/ControlPanel.tsx:275 | an opacity in [0, 1] sits in [0, 100] on the slider |
| Controls.ControlsChangeOneField | Watermark-Studio/src/components/watermark/ControlPanel.tsx:141-292 | every settings control targets the selected index and changes exactly its own field |
| Controls.OnText | Watermark-Studio/src/components/watermark/ControlPanel.tsx:139-141 | the text input's update of the selected index; ControlsChangeOneField states that it sets only the text |
| Controls.OnFont | Watermark-Studio/src/components/watermark/ControlPanel.tsx:164-190 | the font button's update; ControlsChangeOneField states that it sets only the font family |
| Controls.OnSize | Watermark-Studio/src/components/watermark/ControlPanel.tsx:205-244 | the size slider's update, clamped to the kind's range; ControlsChangeOneField and ControlsKeepRanges state it |
| Controls.OnColor | Watermark-Studio/src/components/watermark/ControlPanel.tsx:252-264 | the colour picker's and input's update; ControlsChangeOneField states that it sets only the colour |
| Controls.OnOpacity | Watermark-Studio/src/components/watermark/ControlPanel.tsx:273-278 | the opacity slider's percentage reported as a fraction; OpacityRoundTrip and ControlsKeepRanges state it |
| Controls.OnRotation | Watermark-Studio/src/components/watermark/ControlPanel.tsx:290-294 | the rotation slider's update, clamped to -180..180; ControlsChangeOneField and ControlsKeepRanges state it |
| Controls.ControlsKeepRanges | Watermark-Studio/src/components/watermark/ControlPanel.tsx:206-295 | whatever the controls report, a watermark in the panel ranges stays in them |
| Controls.OpacityRoundTrip | Watermark-Studio/src/components/watermark/ControlPanel.tsx:275-276 | the x100 display and the /100 report are inverse: leaving the slider where it sits keeps the opacity |
| Controls.PanelUpdateEditsSelected | Watermark-Studio/src/components/watermark/ControlPanel.tsx:291-292 | each of the six settings events (text, font, colour, size, opacity, rotation) updates the selected index, and through the editor changes only that entry, by merging its patch; the rest of the list, every other image's list, the current image and the selection stay |
| Controls.IsCustomFont | Watermark-Studio/src/components/watermark/ControlPanel.tsx:44-46 | true exactly when some custom font's family equals the family |
| Controls.ShowsCustomMark | Watermark-Studio/src/components/watermark/ControlPanel.tsx:150 | the custom mark shows exactly for a non-empty family that some custom font carries |
| Controls.FontButtonsAreCustomOrSystem | Watermark-Studio/src/components/watermark/ControlPanel.tsx:164-190 | the font list shows the custom fonts first, each recognised as custom, then the system fonts in order |
| Navigation.Click | Watermark-Studio/src/components/ui/ImageNavigation.tsx:25-102 | a click reports an action exactly when the button is shown and enabled; the arrows move by one with a neighbour in that direction; a thumbnail goes to its own index |
| Navigation.HasPrev | Watermark-Studio/src/components/ui/ImageNavigation.tsx:25 | the previous arrow has a neighbour after the first image; ArrowsAtTheEnds states it through Click |
| Navigation.HasNext | Watermark-Studio/src/components/ui/ImageNavigation.tsx:26 | the next arrow has a neighbour before the last image; ArrowsAtTheEnds states it through Click |
| Navigation.Shown | Watermark-Studio/src/components/ui/ImageNavigation.tsx:69-103 | the arrows, counter and thumbnails appear only with images loaded; Click reports exactly for shown buttons |
| Navigation.Disabled | Watermark-Studio/src/components/ui/ImageNavigation.tsx:37-102 | every button is disabled while exporting, export without images, each arrow without its neighbour; Click reports exactly for enabled buttons |
| Navigation.Counter | Watermark-Studio/src/components/ui/ImageNavigation.tsx:82 | the counter shows exactly when images are loaded, reading between 1 and the count |
| Navigation.Caption | Watermark-Studio/src/components/ui/ImageNavigation.tsx:121 | the caption is the current image's name, and nothing for an index outside the list |
| Navigation.CaptionFollowsNavigation | Watermark-Studio/src/components/ui/ImageNavigation.tsx:98-121 | after a reported navigation the caption names the target image |
| Navigation.ExportingDisablesAll | Watermark-Studio/src/components/ui/ImageNavigation.tsx:37-102 | nothing can be clicked while an export runs |
| Navigation.NoExportWithoutImages | Watermark-Studio/src/components/ui/ImageNavigation.tsx:56 | export cannot start without images |
| Navigation.TargetsStayInRange | Watermark-Studio/src/components/ui/ImageNavigation.tsx:75-101 | every navigation target lies inside the list, so the editor then has that current image |
| Navigation.NextThenPrevReturns | Watermark-Studio/src/components/ui/ImageNavigation.tsx:75-88 | next then previous returns to the starting image |
| Navigation.ArrowsAtTheEnds | Watermark-Studio/src/components/ui/ImageNavigation.tsx:25-26 | previous works exactly after the first image and next exactly before the last |
| PreviewCanvas.Placed | Watermark-Studio/src/components/ui/ImageCanvas.tsx:170-203 | a watermark object is centred on its percentages of the viewport (800 x 600 fallback), at its rotation and opacity; text at its font size, an image scaled by size / 100 |
| PreviewCanvas.TextLayerIsPlaced | Watermark-Studio/src/components/ui/ImageCanvas.tsx:170-191 | every text object is the placement of a text watermark under its own index |
| PreviewCanvas.ImageLayerIsPlaced | Watermark-Studio/src/components/ui/ImageCanvas.tsx:192-215 | every image object is the placement of an image watermark whose source is non-empty and loaded |
| PreviewCanvas.Without | Watermark-Studio/src/components/ui/ImageCanvas.tsx:164-166 | removal keeps exactly the objects not removed, and nothing when all are removed |
| PreviewCanvas.Canvas.constructor | Watermark-Studio/src/components/ui/ImageCanvas.tsx:26-46 | a new canvas has no background, no objects, an empty registry, no active object, and events heard |
| PreviewCanvas.Canvas.SetBackground | Watermark-Studio/src/components/ui/ImageCanvas.tsx:125-151 | a decoded background replaces the previous one, centred and at the background scale; the watermark objects stay |
| PreviewCanvas.Canvas.Clear | Watermark-Studio/src/components/ui/ImageCanvas.tsx:163-167 | every registered object is removed and the registry cleared |
| PreviewCanvas.Canvas.Rebuild | Watermark-Studio/src/components/ui/ImageCanvas.tsx:156-224 | with events muted: the text objects in list order and then the loaded image objects; the registry holds exactly the drawn watermarks, each placed, keyed by index; the selected index's object is active |
| PreviewCanvas.Canvas.AddTextObjects | Watermark-Studio/src/components/ui/ImageCanvas.tsx:170-191 | the synchronous pass adds and registers one object per text watermark |
| PreviewCanvas.Canvas.AddImageObjects | Watermark-Studio/src/components/ui/ImageCanvas.tsx:192-215 | the load callbacks add one object per loaded image watermark, on top |
| PreviewCanvas.Canvas.ResolveImage | Watermark-Studio/src/components/ui/ImageCanvas.tsx:193-215 | one callback registers its image object on top and keeps the registry complete up to it, or adds nothing |
| PreviewCanvas.Canvas.AddText | Watermark-Studio/src/components/ui/ImageCanvas.tsx:170-191 | one step of the synchronous pass: a text watermark gets its registered object, and the registry stays complete up to it |
| PreviewCanvas.Canvas.AddObject | Watermark-Studio/src/components/ui/ImageCanvas.tsx:185-191 | a new object is registered under its index, put on top, and made active when selected |
| PreviewCanvas.Canvas.Settle | Watermark-Studio/src/components/ui/ImageCanvas.tsx:221-223 | the timer ends the muting and changes nothing else |
| PreviewCanvas.Canvas.OnSelection | Watermark-Studio/src/components/ui/ImageCanvas.tsx:71-81 | a selection reports the first selected object's index, exactly when events are heard and something is selected |
| PreviewCanvas.Canvas.OnDeselection | Watermark-Studio/src/components/ui/ImageCanvas.tsx:83-86 | clearing the selection reports no selection, exactly when events are heard |
| PreviewCanvas.Canvas.OnModified | Watermark-Studio/src/components/ui/ImageCanvas.tsx:88-106 | a drag reports the object's index and its corrected drag update (see Findings), exactly when events are heard |
| PreviewCanvas.ReportedSize | Watermark-Studio/src/components/ui/ImageCanvas.tsx:103 | the corrected size report (see Findings): a text object reports its font size times its horizontal scale (the font size when that is 0); an image object reports no size |
| PreviewCanvas.DragPatch | Watermark-Studio/src/components/ui/ImageCanvas.tsx:95-104 | the corrected drag report (see Findings): the x and y place the centre back on the object (extent fallback 1), the rotation is the angle, the size is the corrected report, and no font, colour or other field is reported |
| PreviewCanvas.UnmovedDragChangesNothing | Watermark-Studio/src/components/ui/ImageCanvas.tsx:95-104 | an object that ends a drag where it was placed reports back exactly its watermark |
| PreviewCanvas.DroppedObjectStaysPut | Watermark-Studio/src/components/ui/ImageCanvas.tsx:95-104 | after the drag update, the rebuilt object sits where it was dropped, at the same angle |
| PreviewCanvas.DragKeepsImageScale | Watermark-Studio/src/components/ui/ImageCanvas.tsx:103 | dragging an image watermark keeps its stored scale |
| PreviewCanvas.ReportedSizeAsWritten | Watermark-Studio/src/components/ui/ImageCanvas.tsx:103 | the size key as written is `undefined` exactly when no size is reported |
| PreviewCanvas.MergedSizeAsWritten | Watermark-Studio/src/components/ui/ImageCanvas.tsx:103 | when a size is reported, the merge as written agrees with the corrected merge |
| PreviewCanvas.ImageDragLosesScaleAsWritten | Watermark-Studio/src/components/ui/ImageCanvas.tsx:103 | as written, dragging an image watermark stores `undefined` as its scale; the corrected report keeps it |
| PreviewCanvas.DefaultImageDragExample | Watermark-Studio/src/components/ui/ImageCanvas.tsx:103 | the default watermark made an image at 48% loses its scale when dragged, as written |
| PreviewCanvas.SelectionNamesAnEntry | Watermark-Studio/src/components/ui/ImageCanvas.tsx:74-79 | for any canvas extents, every object the rebuild draws names an entry of the list, so a reported selection keeps the editor valid |
| Fonts.Lower | Watermark-Studio/src/hooks/useDynamicFonts.ts:25 | lower-casing keeps the length and lowers each ASCII capital |
| Fonts.StripExtension | Watermark-Studio/src/hooks/useDynamicFonts.ts:12 | a prefix is removed exactly when the name ends in `.ttf`, `.otf`, `.woff` or `.woff2` in any case, and what goes is that suffix |
| Fonts.StripTag | Watermark-Studio/src/hooks/useDynamicFonts.ts:14 | with a trailing `-` and 3 to 5 letters or digits exactly that tag goes, and otherwise nothing changes |
| Fonts.SplitCamelSplits | Watermark-Studio/src/hooks/useDynamicFonts.ts:17 | the camel rule inserts only spaces, leaves no lower-case letter followed by a capital, and changes nothing in a name without one |
| Fonts.SplitAcronymSplits | Watermark-Studio/src/hooks/useDynamicFonts.ts:18 | the acronym rule inserts only spaces, leaves no two capitals followed by a lower-case letter, and changes nothing in a name without one |
| Fonts.SplitCamelKeepsLetters | Watermark-Studio/src/hooks/useDynamicFonts.ts:17 | apart from spaces, the camel rule keeps every character in order |
| Fonts.SplitCamelLeavesNoBreak | Watermark-Studio/src/hooks/useDynamicFonts.ts:17 | after the camel rule no lower-case letter is directly followed by a capital |
| Fonts.SplitCamelKeepsUnbroken | Watermark-Studio/src/hooks/useDynamicFonts.ts:17 | a name without a lower-case letter directly before a capital is left as it is |
| Fonts.SplitAcronymKeepsLetters | Watermark-Studio/src/hooks/useDynamicFonts.ts:18 | apart from spaces, the acronym rule keeps every character in order |
| Fonts.SplitAcronymLeavesNoBreak | Watermark-Studio/src/hooks/useDynamicFonts.ts:18 | after the acronym rule no two capitals are directly followed by a lower-case letter |
| Fonts.SplitAcronymKeepsUnbroken | Watermark-Studio/src/hooks/useDynamicFonts.ts:18 | a name without two capitals directly before a lower-case letter is left as it is |
| Fonts.SplitAcronymStep | Watermark-Studio/src/hooks/useDynamicFonts.ts:18 | the acronym rule scans left to right: the first character is kept, followed by a space exactly when it opens a capital, capital, lower-case triple |
| Fonts.SplitAcronymAtRun | Watermark-Studio/src/hooks/useDynamicFonts.ts:18 | at every capital, capital, lower-case triple the space goes between the two capitals, and the text on either side is split on its own |
| Fonts.SplitCamelAppend | Watermark-Studio/src/hooks/useDynamicFonts.ts:17 | the camel rule is local: a concatenation splits as its parts do, with a space at the seam exactly for a lower/upper pair |
| Fonts.SplitCamelIdempotent | Watermark-Studio/src/hooks/useDynamicFonts.ts:17 | splitting twice is splitting once |
| Fonts.SplittingKeepsLetters | Watermark-Studio/src/hooks/useDynamicFonts.ts:16-18 | apart from spaces, both rules keep every character in order |
| Fonts.StripDemo | Watermark-Studio/src/hooks/useDynamicFonts.ts:19 | one trailing `demo`, in any case, goes; otherwise nothing changes |
| Fonts.SkipSpaces | Watermark-Studio/src/hooks/useDynamicFonts.ts:20 | the first index from the start point that holds no white space; everything before it is white space |
| Fonts.SkipSpacesBack | Watermark-Studio/src/hooks/useDynamicFonts.ts:20 | going back from the end, the end of the text before the trailing white space; everything after it is white space |
| Fonts.Trim | Watermark-Studio/src/hooks/useDynamicFonts.ts:20 | the result is a middle part of the input that starts and ends with a non-space, and only white space is cut around it |
| Fonts.SplitCamel | Watermark-Studio/src/hooks/useDynamicFonts.ts:17 | the camel rule as a scan; its properties are the SplitCamel lemmas |
| Fonts.SplitAcronym | Watermark-Studio/src/hooks/useDynamicFonts.ts:18 | the acronym rule as a scan; its properties are the SplitAcronym lemmas |
| Fonts.FileToFontName | Watermark-Studio/src/hooks/useDynamicFonts.ts:10-21 | the five rules in source order; the name never starts or ends with white space |
| Fonts.GreatVibesExample | Watermark-Studio/src/hooks/useDynamicFonts.ts:10-21 | `GreatVibes-mOBm.ttf` is named `Great Vibes` |
| Fonts.ABCFontExample | Watermark-Studio/src/hooks/useDynamicFonts.ts:10-21 | `ABCFont` is named `ABC Font` |
| Fonts.MyFontDemoExample | Watermark-Studio/src/hooks/useDynamicFonts.ts:10-21 | `MyFontDemo.ttf` is named `My Font` |
| Fonts.LastSegment | Watermark-Studio/src/hooks/useDynamicFonts.ts:25 | the text after the last dot: a dot-free suffix of the name, preceded by a dot when shorter than the name; a name without a dot is its own last segment |
| Fonts.FormatOf | Watermark-Studio/src/hooks/useDynamicFonts.ts:26-32 | every extension maps to one of truetype, opentype, woff, woff2 |
| Fonts.FontFormat | Watermark-Studio/src/hooks/useDynamicFonts.ts:24-33 | every font file gets one of the four formats |
| Fonts.FormatOfExtension | Watermark-Studio/src/hooks/useDynamicFonts.ts:24-33 | the format depends only on the lower-cased extension, whatever the base name |
| Fonts.FormatExamples | Watermark-Studio/src/hooks/useDynamicFonts.ts:26-32 | ttf, otf, woff and woff2 in any case map to their formats, and anything else to truetype |
| Fonts.FontOf | Watermark-Studio/src/hooks/useDynamicFonts.ts:67-71 | a loaded font's name and family are both the name the naming rule gives its file, and its file is the manifest entry (the hook passes `FileToFontName` as the rule) |
| Fonts.LoadedFonts | Watermark-Studio/src/hooks/useDynamicFonts.ts:52-75 | never more fonts than manifest entries, whatever the naming rule |
| Fonts.LoadedFontsKeepSuccesses | Watermark-Studio/src/hooks/useDynamicFonts.ts:54-75 | every font that loads is offered |
| Fonts.LoadedFontsAreSuccesses | Watermark-Studio/src/hooks/useDynamicFonts.ts:54-75 | every offered font loaded and is named after its file |
| Fonts.AllFontsLoad | Watermark-Studio/src/hooks/useDynamicFonts.ts:54-75 | when every file loads, the fonts are the manifest entries in order, each named by the rule |
| Fonts.NoFontLoads | Watermark-Studio/src/hooks/useDynamicFonts.ts:54-75 | when no file loads, there are no fonts |
| Fonts.DynamicFonts.constructor | Watermark-Studio/src/hooks/useDynamicFonts.ts:36-38 | the hook starts with no fonts, loading, and no error |
| Fonts.ManifestError | Watermark-Studio/src/hooks/useDynamicFonts.ts:45-46 | a thrown error leaves its own message; a failed response, or a throw without a message, leaves a non-empty message |
| Fonts.DynamicFonts.Load | Watermark-Studio/src/hooks/useDynamicFonts.ts:41-83 | a fetched manifest yields exactly the fonts whose files load, in manifest order, named by `FileToFontName`, and no error; a failed fetch leaves no fonts and sets its message; loading ends either way |

The handlers and the export of `Watermark-Studio/src/components/ui/WatermarkEditor.tsx`
(lines 40-184 and 257-316) match those of `components/watermark/WatermarkEditor.tsx`
line for line. Only the renderer differs, and `Compositor.Variant` selects it:

- `NativePercent` models `components/ui/WatermarkEditor.tsx:185-255`;
- `FitToPreview` models `components/watermark/WatermarkEditor.tsx:183-292`.

## Left out

- Pixels: decoding, text layout and encoding. Drawing is the ordered list of commands the 2D
  context receives, and each decode or encode outcome is an input.
- Rotation by `Math.PI`: a rotation stays in degrees inside the draw command.
- Floating point: every number is an exact `real`. NaN, infinities and rounding are not
  modelled, apart from the `undefined` size in the finding below.
- Toasts: each handler returns a `Notice` value. The export's progress messages,
  `console` logging and the final success or failure toast are left out.
- The ZIP archive: compression, `generateAsync`, `saveAs` and the timestamped file name
  are left out. Whether the folder and the archive are created are inputs.
- The `isExporting` flag: it is a parameter of the navigation bar. `ExportAll` does not
  set or clear it.
- `crypto.randomUUID` and `URL.createObjectURL`: their values are inputs (`Fresh`).
- File pickers: the hidden-input clicks of `handleLoadFolder`, `handleLoadImage` and
  `handleLoadWatermarkImage`, and the 100 ms timer that opens the picker after an image
  watermark is added, are UI plumbing.
- React hook semantics such as stale closures: each handler is one atomic transition on
  the current state.
- Store.UpdateWatermark: for an index outside the current list, the source writes a partial
  record at that index, growing the array. The model leaves the list unchanged.
- PreviewCanvas.Canvas.Rebuild: Fabric's asynchronous image loads are modelled as running
  in list order after the synchronous pass. Callbacks left over from an earlier rebuild,
  which the source does not cancel, are not modelled.
- PreviewCanvas.Canvas.Settle: the 50 ms timer that ends the muting is a method the
  caller invokes, not a clock.
- PreviewCanvas.Canvas: the background image is held in its own field, not in `objects`,
  so `sendObjectToBack` is implicit. Container resizes (`ResizeObserver`) are not
  modelled; the canvas's width and height are constants.
- PreviewCanvas.Canvas.OnSelection: the `index !== undefined` test is not modelled. Only
  watermark objects are evented, so every selectable object carries an index.
- PreviewCanvas.DragPatch: this is the corrected report, in which an image object
  reports no size and so keeps its stored scale. As written, the report carries
  `fontSize: undefined` for an image object, which the update stores over the scale; that
  behaviour is modelled separately by PreviewCanvas.ReportedSizeAsWritten,
  PreviewCanvas.MergedSizeAsWritten and PreviewCanvas.ImageDragLosesScaleAsWritten (see
  Findings). Resizing an image object in the preview is not stored in either version.
  Placement falls back to an 800 x 600 viewport and the drag report to 1 x 1. The
  round-trip lemmas require positive extents, where the two fallbacks agree.
- Controls.Slide: the slider's step of 1 (value snapping) is not modelled. A reported
  value is only clamped to the range.
- Controls: the `Math.round` in the opacity label, the loading spinner of the font list,
  and styling are left out.
- Fonts.Lower: only ASCII letters are folded. The suffixes compared are ASCII, and no
  other character lowers onto `t`, `f`, `o`, `w`, `d`, `e` or `m`, so the comparisons are
  exact.
- Store.CopiesAreIndependent: the model has value semantics, so the fresh objects of the
  per-watermark spread are not modelled as objects; the lemma records that each image
  holds its own copy, and aliasing between images cannot arise.
- Fonts.DynamicFonts.Load: `fetch`, `FontFace.load` and `document.fonts.add` are left
  out; each font's load result is an input. A `FontFace` constructor that throws, and a
  manifest that is not a list of strings, are not modelled.

## Findings

| source | as written | input that shows it | evidently intended | confidence | as-written member | corrected member |
|---|---|---|---|---|---|---|
| Watermark-Studio/src/components/ui/ImageCanvas.tsx:103 | the drag report always carries a `fontSize` key, which is `undefined` for an image object (it has no font size). The spread in the update handler then overwrites the stored scale with `undefined`. | any image watermark, e.g. the default made an image at 48% with a source, dragged anywhere | a drag of an image watermark keeps its scale | not executed | PreviewCanvas.ImageDragLosesScaleAsWritten | PreviewCanvas.DragKeepsImageScale |
