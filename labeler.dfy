/** The request handlers of main.py: choosing the next image and building its
    page (`index`, main.py:82-100, with `make_template`, main.py:59-71), and
    storing a submission and archiving its image (`save`, main.py:103-116,
    with `update_labeled`, main.py:74-79). The two directories and the labels
    file are the fields of one object. */
module Labeler {
  import opened Schema
  import opened Html
  import opened Render
  import opened Submission
  import opened Numerals

  /** The plain reply once the queue is empty ("nothing left to label"). */
  const NothingLeftMessage: string := "Размечать больше нечего"

  const RemainingWord: string := "Осталось"

  /** What the page template receives: its title, the image, and the
      fragments of the fields joined by newlines. */
  datatype Page = Page(title: string, image: string, keys: string)

  datatype IndexResponse =
    | NothingLeft(message: string)
    | Form(page: Page)
    | RenderFailed(error: RenderError)

  /** `save` answers with a 302 redirect to `/`, unless moving the image raises. */
  datatype SaveResponse = RedirectToIndex | MoveFailed

  /** `f"{title} | Осталось {len(images)}"` */
  function PageTitle(config: Config, remaining: nat): string
  {
    PageHeading(config) + " | " + RemainingWord + " " + DecimalString(remaining)
  }

  /** `labeled_data.get(image_src, {})` */
  function LabelsFor(store: Store, image: string): Record
  {
    if image in store then store[image] else map[]
  }

  /** `make_template(keys, image_src, count_part)` for `image` when `images`
      are pending: the fields are rendered from the image's stored record (or
      an empty one), and the first field that fails aborts the page. */
  function PageFor(config: Config, store: Store, images: seq<string>, image: string): (r: IndexResponse)
    ensures r.Form? || r.RenderFailed?
    ensures r.Form? <==> forall i :: 0 <= i < |config.keys| ==> Renderable(config.keys[i])
    ensures r.RenderFailed? ==>
      exists i :: 0 <= i < |config.keys| && KeyToHtml(config.keys[i], LabelsFor(store, image)) == Failure(r.error)
                  && forall j :: 0 <= j < i ==> Renderable(config.keys[j])
    ensures r.Form? ==> r.page.image == image && r.page.title == PageTitle(config, |images|)
  {
    match RenderKeys(config.keys, LabelsFor(store, image))
    case Failure(e) => RenderFailed(e)
    case Success(fragments) => Form(Page(PageTitle(config, |images|), image, Join("\n", fragments)))
  }

  /** The `keys` text of a page is the markup of one `<div class="key">` tree
      per field, in schema order, separated by newlines, and those trees are
      all the elements it holds. */
  lemma PageKeysAreKeyTrees(config: Config, store: Store, images: seq<string>, image: string)
    requires forall i :: 0 <= i < |config.keys| ==> Renderable(config.keys[i])
    ensures var trees := KeyTrees(config.keys, LabelsFor(store, image));
      PageFor(config, store, images, image).Form?
      && PageFor(config, store, images, image).page.keys == SerializeAll(Interleave(Text("\n"), trees))
      && Elements(Interleave(Text("\n"), trees)) == trees
  {
    var data := LabelsFor(store, image);
    var trees := KeyTrees(config.keys, data);
    var fragments := RenderKeys(config.keys, data).value;
    forall i | 0 <= i < |config.keys|
      ensures SerializeEach(trees)[i] == fragments[i]
    {
      KeyToHtmlIsTree(config.keys[i], data);
    }
    assert SerializeEach(trees) == fragments;
    SerializeInterleaved("\n", trees);
    ElementsOfInterleaved("\n", trees);
  }

  /** A directory listing names each file once. */
  predicate Distinct(names: seq<string>)
  {
    forall i, j :: 0 <= i < j < |names| ==> names[i] != names[j]
  }

  /** The listing after `name` has been moved out of the directory. */
  function Without(names: seq<string>, name: string): (r: seq<string>)
    ensures forall y :: y in r <==> y in names && y != name
    ensures Distinct(names) ==> Distinct(r)
    ensures Distinct(names) && name in names ==> |r| == |names| - 1
    ensures name !in names ==> r == names
  {
    if names == [] then []
    else
      var rest := Without(names[1..], name);
      if names[0] == name then
        assert Distinct(names) ==> name !in names[1..];
        rest
      else
        assert Distinct(names) ==> Distinct(names[1..]) && names[0] !in rest by {
          if Distinct(names) {
            assert forall i, j :: 0 <= i < j < |names[1..]| ==> names[1..][i] == names[i + 1] && names[1..][j] == names[j + 1];
            assert names[0] !in names[1..];
          }
        }
        [names[0]] + rest
  }

  /** The title ends with the number of pending images, written in decimal. */
  lemma PageTitleCount(config: Config, remaining: nat)
    ensures var t, d := PageTitle(config, remaining), DecimalString(remaining);
      |d| <= |t| && t[|t| - |d|..] == d
      && (forall i :: 0 <= i < |d| ==> IsDigit(d[i])) && ParseDecimal(d) == remaining
  {
    DecimalRoundTrip(remaining);
  }

  /** After a save, the form for the same image shows what was submitted:
      a checkbox is checked exactly when its name was in the body, and a text
      or textarea field holds the last value submitted under its name. */
  lemma SavedRecordRendersBack(keys: seq<Field>, pairs: Pairs, k: nat)
    requires UniqueNames(keys) && k < |keys|
    ensures IsCheckbox(keys[k]) ==>
      (HasFlag(Control(keys[k], SubmittedRecord(keys, pairs)), "checked") <==> keys[k].name in Names(pairs))
    ensures Kind(keys[k]) == "str" ==> forall i :: 0 <= i < |pairs| && pairs[i].0 == keys[k].name && LastOccurrence(pairs, i) ==>
      AttrValue(Control(keys[k], SubmittedRecord(keys, pairs)).attrs, "value") == Some(pairs[i].1)
    ensures Kind(keys[k]) == "multiline_str" ==> forall i :: 0 <= i < |pairs| && pairs[i].0 == keys[k].name && LastOccurrence(pairs, i) ==>
      Control(keys[k], SubmittedRecord(keys, pairs)).children == [Text(pairs[i].1)]
  {
    var key := keys[k];
    var data := SubmittedRecord(keys, pairs);
    SubmittedRecordFields(keys, pairs);
    if IsCheckbox(key) {
      assert key.name in CheckboxNames(keys);
      CheckboxCheckedIffTruthy(key, data);
    }
    if Kind(key) == "str" || Kind(key) == "multiline_str" {
      TextFieldsPrefilled(key, data);
      forall j | 0 <= j < |keys| && IsCheckbox(keys[j])
        ensures keys[j].name != key.name
      {
        assert j != k;
        if j < k { assert keys[j].name != keys[k].name; }
        else { assert keys[k].name != keys[j].name; }
      }
      assert key.name !in CheckboxNames(keys);
    }
  }

  /** The labeler's state: the pending directory's listing, the names in the
      output directory, and the label store. */
  class Labeler {
    const config: Config
    var pending: seq<string>
    var archived: set<string>
    var store: Store

    ghost predicate Valid()
      reads this
    {
      Distinct(pending)
    }

    constructor (config: Config, listing: seq<string>, archived: set<string>, store: Store)
      requires Distinct(listing)
      ensures Valid()
      ensures this.config == config && pending == listing
      ensures this.archived == archived && this.store == store
    {
      this.config := config;
      this.pending := listing;
      this.archived := archived;
      this.store := store;
    }

    /** `index`: an empty listing is the terminal "nothing left" reply;
        otherwise the first image (sequential) or any pending image (random)
        is rendered with its stored labels, under a title that counts the
        pending images. */
    method Index() returns (resp: IndexResponse)
      ensures pending == [] <==> resp == NothingLeft(NothingLeftMessage)
      ensures pending != [] ==>
        exists i :: 0 <= i < |pending| && resp == PageFor(config, store, pending, pending[i])
                    && (!RandomSampling(config) ==> i == 0)
      ensures resp.Form? ==>
        resp.page.image in pending
        && (!RandomSampling(config) ==> resp.page.image == pending[0])
        && resp.page.title == PageTitle(config, |pending|)
        && (forall k :: 0 <= k < |config.keys| ==> Renderable(config.keys[k]))
    ensures resp.Form? ==>
      var trees := KeyTrees(config.keys, LabelsFor(store, resp.page.image));
      |trees| == |config.keys|
      && resp.page.keys == SerializeAll(Interleave(Text("\n"), trees))
      && Elements(Interleave(Text("\n"), trees)) == trees
    {
      var images := pending;
      if images == [] {
        return NothingLeft(NothingLeftMessage);
      }
      var i: nat;
      if RandomSampling(config) {
        i :| 0 <= i < |images|;
      } else {
        i := 0;
      }
      var imageSrc := images[i];
      resp := PageFor(config, store, images, imageSrc);
      if resp.Form? {
        PageKeysAreKeyTrees(config, store, images, imageSrc);
      }
    }

    /** `update_labeled`: the image's record is replaced wholesale. */
    method UpdateLabeled(image: string, data: Record)
      modifies this`store
      ensures store == old(store)[image := data]
    {
      store := store[image := data];
    }

    /** `shutil.move` of the image from the pending to the output directory;
        it fails when the image is not pending. */
    method MoveToOutput(image: string) returns (moved: bool)
      requires Valid()
      modifies this`pending, this`archived
      ensures Valid()
      ensures moved == (image in old(pending))
      ensures pending == Without(old(pending), image)
      ensures archived == if moved then old(archived) + {image} else old(archived)
    {
      moved := image in pending;
      if moved {
        pending := Without(pending, image);
        archived := archived + {image};
      }
    }

    /** `save`: coerce the submission, store it under the image, then move
        the image out of the queue. The record is written before the move, so
        it is stored even when the move fails. */
    method Save(image: string, pairs: Pairs) returns (resp: SaveResponse)
      requires Valid()
      modifies this
      ensures Valid()
      ensures store == old(store)[image := SubmittedRecord(config.keys, pairs)]
      ensures image !in pending
      ensures pending == Without(old(pending), image)
      ensures image in old(pending) ==> |pending| == |old(pending)| - 1
      ensures archived == if image in old(pending) then old(archived) + {image} else old(archived)
      ensures resp == if image in old(pending) then RedirectToIndex else MoveFailed
    {
      var data := DictFromPairs(pairs);
      data := CoerceCheckboxes(config.keys, data);
      UpdateLabeled(image, data);
      var moved := MoveToOutput(image);
      resp := if moved then RedirectToIndex else MoveFailed;
    }
  }
}
