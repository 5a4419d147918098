/** `edit_image_names` (utils/local.py) end to end, as written and with
    each image counted once: the second pass moves the image files and the
    `fig` references, whatever captions the first pass produced. */
module EditImages {
  import opened Wrappers
  import opened Content
  import opened Naming
  import opened Project
  import opened Images
  import opened ImagePass

  /** The topics, captions and files `edit_image_names` ends with are those
      of the renaming pass over its captions. */
  lemma EditImageNamesPass<T>(w: World, topics: seq<Topic>, imgs: ImageMap, files: map<string, T>, prefix: string)
    requires Known(imgs, Images.Hrefs(Visits(topics, 0)))
    ensures var vs := Visits(topics, 0);
      var imgs1 := TitlesOf(topics, imgs);
      var q := RenameLoop(w, topics, files, imgs1, vs, Dedupe(Images.Hrefs(vs)), prefix);
      var r := EditImageNames(w, topics, imgs, files, prefix);
      r.1 == q.1 && r.2 == imgs1 && r.3 == q.2
  {
  }

  lemma EditImageNamesFixedPass<T>(w: World, topics: seq<Topic>, imgs: ImageMap, files: map<string, T>, prefix: string)
    requires Known(imgs, Images.Hrefs(Visits(topics, 0)))
    ensures var vs := Visits(topics, 0);
      var imgs1 := TitlesOfFixed(topics, imgs);
      var q := RenameLoop(w, topics, files, imgs1, vs, Dedupe(Images.Hrefs(vs)), prefix);
      var r := EditImageNamesFixed(w, topics, imgs, files, prefix);
      r.1 == q.1 && r.2 == imgs1 && r.3 == q.2
  {
  }

  /** `edit_image_names` as written, whole pass: the references. */
  lemma EditImageNamesRetargets<T>(w: World, topics: seq<Topic>, imgs: ImageMap, files: map<string, T>, prefix: string)
    requires Known(imgs, Images.Hrefs(Visits(topics, 0)))
    requires NoChains(TitlesOf(topics, imgs), Dedupe(Images.Hrefs(Visits(topics, 0))), prefix)
    ensures var r := EditImageNames(w, topics, imgs, files, prefix);
      AllPointAtNewNames(topics, r.1, r.2, prefix)
  {
    var r := EditImageNames(w, topics, imgs, files, prefix);
    EditImageNamesPass(w, topics, imgs, files, prefix);
    RenamePassRetargets(w, topics, files, r.2, r.1, prefix);
  }

  /** `edit_image_names` as written, whole pass: the files. */
  lemma EditImageNamesMovesFiles<T>(w: World, topics: seq<Topic>, imgs: ImageMap, files: map<string, T>, prefix: string)
    requires Known(imgs, Images.Hrefs(Visits(topics, 0)))
    requires var imgs1 := TitlesOf(topics, imgs);
      var order := Dedupe(Images.Hrefs(Visits(topics, 0)));
      NoChains(imgs1, order, prefix) && NamesApart(imgs1, order, prefix) && DestinationsFree(files, imgs1, order, prefix)
    ensures var r := EditImageNames(w, topics, imgs, files, prefix);
      forall h :: h in Images.Hrefs(Visits(topics, 0)) && h in files ==>
        h in r.2 && ImageName(r.2[h], prefix) in r.3 && r.3[ImageName(r.2[h], prefix)] == files[h]
    ensures var r := EditImageNames(w, topics, imgs, files, prefix);
      forall h :: h in Images.Hrefs(Visits(topics, 0)) ==> h in r.2 && (ImageName(r.2[h], prefix) != h ==> h !in r.3)
  {
    RenamePassMovesFiles(w, topics, files, TitlesOf(topics, imgs), prefix);
    EditImageNamesPass(w, topics, imgs, files, prefix);
  }

  /** `edit_image_names` with each image counted once, whole pass: the
      references. */
  lemma EditImageNamesFixedRetargets<T>(w: World, topics: seq<Topic>, imgs: ImageMap, files: map<string, T>, prefix: string)
    requires Known(imgs, Images.Hrefs(Visits(topics, 0)))
    requires NoChains(TitlesOfFixed(topics, imgs), Dedupe(Images.Hrefs(Visits(topics, 0))), prefix)
    ensures var r := EditImageNamesFixed(w, topics, imgs, files, prefix);
      AllPointAtNewNames(topics, r.1, r.2, prefix)
  {
    var r := EditImageNamesFixed(w, topics, imgs, files, prefix);
    EditImageNamesFixedPass(w, topics, imgs, files, prefix);
    RenamePassRetargets(w, topics, files, r.2, r.1, prefix);
  }

  /** `edit_image_names` with each image counted once, whole pass: the
      files. */
  lemma EditImageNamesFixedMovesFiles<T>(w: World, topics: seq<Topic>, imgs: ImageMap, files: map<string, T>, prefix: string)
    requires Known(imgs, Images.Hrefs(Visits(topics, 0)))
    requires var imgs1 := TitlesOfFixed(topics, imgs);
      var order := Dedupe(Images.Hrefs(Visits(topics, 0)));
      NoChains(imgs1, order, prefix) && NamesApart(imgs1, order, prefix) && DestinationsFree(files, imgs1, order, prefix)
    ensures var r := EditImageNamesFixed(w, topics, imgs, files, prefix);
      forall h :: h in Images.Hrefs(Visits(topics, 0)) && h in files ==>
        h in r.2 && ImageName(r.2[h], prefix) in r.3 && r.3[ImageName(r.2[h], prefix)] == files[h]
    ensures var r := EditImageNamesFixed(w, topics, imgs, files, prefix);
      forall h :: h in Images.Hrefs(Visits(topics, 0)) ==> h in r.2 && (ImageName(r.2[h], prefix) != h ==> h !in r.3)
  {
    RenamePassMovesFiles(w, topics, files, TitlesOfFixed(topics, imgs), prefix);
    EditImageNamesFixedPass(w, topics, imgs, files, prefix);
  }
}
