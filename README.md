# Key-value image labeler, modelled in Dafny

The labeler is a small web tool. It shows the images of a folder one at a
time, with a form built from a configured list of fields. It stores each
submitted form in a JSON label store keyed by image file name, and then moves
the image out of the folder. This project models the logic of `main.py` and
proves what it does:

- **Field rendering** (`key_to_html`, `schema.dfy`, `html.dfy`, `render.dfy`).
  A field descriptor and the image's stored record give one HTML fragment. The
  fragment is built by string interpolation, as in the source's f-strings.
  Each known field type (`str`, `multiline_str`, `checkbox`, `select`) is also
  described as a small tree of HTML elements. A lemma proves that the
  interpolated text is exactly the markup of that tree. The structural
  properties (which element, which attribute, whether the `checked` or
  `selected` flag is present) are then proved on the tree. They cannot be read
  off the bare string, because names, titles and values are interpolated
  without escaping. The source does no escaping, and neither does the model.
- **Submission coercion** (`submission.dfy`). The parsed form pairs become a
  record in which the last duplicate wins. The checkbox loop of `save` is a
  method with a loop, proved against a fold over the schema. Lemmas state its
  effect. Every checkbox holds whether its name was submitted, and every other
  entry is left as submitted. The loop tests membership in the record it is
  updating. So, as written, a checkbox name declared twice always ends
  `true`. The configuration is meant to have unique names, and
  `DuplicateCheckboxIsTrue` records what happens when it does not.
- **Queue and store** (`labeler.dfy`, `numerals.dfy`). A `Labeler` object holds
  the pending listing, the archived names and the label store. `Index` returns
  the terminal "nothing left" reply when nothing is pending. Otherwise it picks
  the first image (sequential) or any pending image (random) and renders its
  page. The page title ends with the pending count, written in decimal.
  `Save` replaces the image's record wholesale, then moves the image. The
  record is written before the move, so it stays stored when the move fails
  because the image is not pending.

Values in a record are `Str(string)` or `Bool(bool)`. A `select` descriptor
without `options` raises `KeyError` in `key_to_html` (`key["options"]`). The
model carries this as the error `MissingOptions`, alongside the unknown-type
error.

## Model

| member | source | states |
|---|---|---|
| `Render.KeyToHtml` | main.py:38-56 | rendering succeeds exactly for the four known types (a select also needs its options); an unknown type fails with that type, and a select without options fails with a missing-options error |
| `Render.FragmentIsKeyDiv` | main.py:56 | every rendered fragment starts with `<div class="key">` and ends with `</div>` |
| `Render.KeyToHtmlIsTree` | main.py:44-56 | the interpolated fragment is exactly the markup of the field's element tree (div.key, then label, then title and control) |
| `Render.KeyTreeShape` | main.py:44-56 | the tree is one `div` of class `key` whose only element is a `label`; the label's only element is the control, named after the field, and the label shows the field's title |
| `Render.TextFieldsPrefilled` | main.py:44-47 | a `str` field is a text input whose `value` is `str()` of the stored value; a `multiline_str` field is a textarea holding it |
| `Render.CheckboxCheckedIffTruthy` | main.py:48-49 | a checkbox is a checkbox input that carries `checked` exactly when the stored value is truthy |
| `Render.SelectOptionsInOrder` | main.py:50-52 | a select has one option per configured option, in configuration order, each showing and submitting that option; an option is `selected` exactly when it equals the stored value |
| `Render.SelectAtMostOneSelected` | main.py:51 | with distinct options, no two options are marked `selected` |
| `Render.KindDefaultsToStr` | main.py:39 | an omitted `type` renders exactly as `"str"` and always succeeds |
| `Render.TitleDefaultsToName` | main.py:41 | an omitted `title` renders exactly as the field's name |
| `Render.MissingValueIsEmpty` | main.py:42 | a field with no stored value renders as if `""` were stored |
| `Render.OnlyOwnValueMatters` | main.py:42 | a fragment depends on the record only through the field's own entry |
| `Render.RenderAll` | main.py:66 | a list comprehension whose element may raise succeeds exactly when every element succeeds, giving the results in order; otherwise it fails with the error of the first element that raises, all earlier ones having succeeded |
| `Render.RenderKeys` | main.py:66 | the key list succeeds exactly when every field renders; it then has one fragment per schema entry, in schema order; otherwise its error is that of the first failing field |
| `Submission.DictFromPairs` | main.py:107 | the dict has exactly the submitted names as keys, each holding the string of its last occurrence (blank values kept) |
| `Submission.CoerceKeys` | main.py:109-111 | coercion adds exactly the checkbox names to the record's keys |
| `Submission.CoerceKeepsOthers` | main.py:109-111 | entries whose name is not a checkbox keep their submitted value |
| `Submission.CoerceCheckboxValue` | main.py:109-111 | each checkbox holds whether its name was submitted, or `true` if the name is declared as a checkbox twice |
| `Submission.CheckboxIsPresence` | main.py:109-111 | with unique names, each checkbox holds `true` exactly when its name was a submitted key, even with an empty value |
| `Submission.DuplicateCheckboxIsTrue` | main.py:109-111 | a checkbox name declared twice ends `true` whatever was submitted |
| `Submission.CoerceCheckboxes` | main.py:109-111 | the loop computes the coercion fold, adds the checkbox names, keeps other entries, and (unique names) sets each checkbox to presence |
| `Submission.SubmittedRecordFields` | main.py:107-111 | with unique field names, the stored record has the submitted names plus the checkbox names; checkboxes hold presence, and other names hold their last submitted string |
| `Submission.CheckedFlagExample` | main.py:107-111 | `caption=hello&flag=on` is stored as `{"caption": "hello", "flag": true}` |
| `Submission.MissingFlagExample` | main.py:107-111 | `caption=` is stored as `{"caption": "", "flag": false}` |
| `Numerals.DecimalRoundTrip` | main.py:97 | the count's numeral is non-empty, all digits, has no leading zero, and reads back as the count |
| `Numerals.DecimalInjective` | main.py:97 | different counts give different numerals |
| `Labeler.PageTitleCount` | main.py:97 | the page title ends with the decimal numeral of the pending count |
| `Labeler.Without` | main.py:114 | moving an image out leaves every other pending name, removes that one, keeps the listing duplicate-free and shortens it by one when the image was pending |
| `Labeler.SavedRecordRendersBack` | main.py:107-113 | with unique field names, after a save a checkbox of the image's form is checked exactly when its name was submitted, and a `str` input or a `multiline_str` textarea holds the last value submitted under its name |
| `Labeler.PageFor` | main.py:59-71 | the page renders the fields from the image's stored record, or an empty one; it is a form exactly when every field renders, titled with the configured heading and the count, and otherwise fails with the error of the first failing field |
| `Labeler.PageKeysAreKeyTrees` | main.py:64-70 | the page's `keys` text is the markup of one `<div class="key">` tree per field, in schema order, joined by newlines, and those trees are all the elements it holds |
| `Labeler.Labeler.constructor` | main.py:14-22 | the labeler starts from the configuration, the pending listing, the archived names and the stored labels |
| `Labeler.Labeler.Index` | main.py:84-98 | nothing pending gives the "nothing left" reply; otherwise the page is `PageFor` the first image (sequential) or some pending image (random), titled with the pending count; a form's `keys` text is one `<div class="key">` tree per field, in schema order, joined by newlines |
| `Labeler.Labeler.UpdateLabeled` | main.py:74-79 | the store's entry for the image becomes the new record, with no merge; every other entry is unchanged |
| `Labeler.Labeler.MoveToOutput` | main.py:114 | a pending image leaves the listing and joins the archived names; moving an image that is not pending fails and changes nothing |
| `Labeler.Labeler.Save` | main.py:104-116 | the coerced record replaces the image's entry, then the image is no longer pending and is archived, and the reply redirects to the index; if the image was not pending, the record is still stored and the move fails |

## Left out

- The FastAPI application, its routes, the static file mounts and the HTTP response objects are web plumbing. `Index` and `Save` return a plain datatype instead.
- Reading `config.json`, `index.html` and the label file, writing the label file with `json.dump`, and creating the output directory are file I/O. The configuration is a `Config` value, and the store is an in-memory map held by the `Labeler` object.
- `urllib.parse.parse_qsl` decodes the `application/x-www-form-urlencoded` body (WHATWG URL Standard, section 5.1). It is a library call, so `Save` takes its output as a sequence of name/value pairs.
- `random.choice` is modelled as a nondeterministic choice among the pending images. Its uniform distribution is not modelled.
- The order of `os.listdir` and the file operations of `shutil.move` are filesystem behaviour. The listing is an abstract duplicate-free sequence. A move either removes a pending name and adds it to the archived set, or fails when the name is not pending.
- `os.path.join` of the image name with the directories is not modelled, so neither are names that contain path separators.
- `template.format` fills the HTML template, which is not part of this model. `Index` returns the three values passed to it: the page's title, the image name and the newline-joined fragments.
- A field descriptor without `name` raises `KeyError` in the source. In the model every descriptor has a name. The model also takes `type`, `title` and `options` to be strings, when present.
- Stored values other than strings and booleans (JSON numbers, lists, objects written into the label file by hand) are not modelled.
- Concurrent requests, and a crash during the non-atomic write of the label file, are not modelled. The tool assumes a single user.
