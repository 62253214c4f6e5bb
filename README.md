# ClopeTracker avatar pipeline, modelled in Dafny

This project models the avatar pipeline of the ClopeTracker accounts app, plus the small pure helpers around it.

- **The lifecycle coordinator** (`accounts/signals.py`). This is the pre-save, post-save and post-delete hooks on `User`. The class `Signals.AvatarLifecycle` holds three things: the storage (the set of stored file names), the committed `User` rows by primary key, and the mark the pre-save hook leaves on the instance (`_old_profile_image_to_delete`).
  - The hooks are its methods. `Commit` and `DeleteRow` stand for the ORM write that runs between them.
  - `Save` and `Delete` run one whole mutation. They prove three invariants: every file a row refers to stays stored; no file is shared by two rows; and, when every storage delete succeeds, no stored file is left unreferenced.
- **The avatar normaliser** (`accounts/utils/images.py`, `process_avatar`). This covers the colour-mode rule (only "P" and "RGBA" are converted; other alpha modes such as "LA" are kept as they are), the centre-crop box, the 512×512 target, the WebP-then-JPEG choice with quality 85, the output name (`os.path.splitext` root plus the new extension) and the content type.
  - Pillow is an oracle: a datatype of functions that give each pixel operation's result and say whether decoding or encoding fails.
  - `ProcessAvatar` is the step-by-step method. `Normalise` is the function it is proved equal to, and the properties are proved about `Normalise`.
- **The `User` record** (`accounts/models.py`). This covers the fields the pipeline uses, their declared constraints and defaults, the `profiles/` upload directory and `profile_image_url`.
- **The registration email check** (`accounts/forms.py`). This is the required email field followed by `clean_email`: strip, lowercase, and refuse an address already used, compared case-insensitively.
- **The comma-list settings** (`clopetracker/settings.py`). These are `ALLOWED_HOSTS` and `CSRF_TRUSTED_ORIGINS`, parsed as `[h.strip() for h in raw.split(",") if h.strip()]`. Python's `strip`, `split` and `lower` are modelled in `Text`, and `os.path.splitext` in `PosixPath`.

External inputs are parameters of the model:
- the Pillow oracle;
- whether the storage backend's delete succeeds (`backendOk`);
- the primary key the database assigns to a new row (`nextPk`);
- the email address validator (`validAddress`).

The random suffix storage appends to a taken name is a nondeterministic choice.

## Model

| member | source | states |
|---|---|---|
| Text.Strip | clopetracker/settings.py:28 | `strip()` leaves no whitespace at either end, and it returns "" exactly when the input is all whitespace. The result is a contiguous slice of the input, and everything cut away on either side is whitespace. |
| Text.StripUnique | clopetracker/settings.py:28 | Any slice with only whitespace around it and none at its own ends is exactly what `strip()` returns. |
| Text.StripAvoids | clopetracker/settings.py:28 | `strip()` introduces no character the input lacks. |
| Text.StripIdempotent | clopetracker/settings.py:28 | Stripping twice is the same as stripping once. |
| Text.Split | clopetracker/settings.py:28 | `split(",")` always yields at least one piece, and no piece contains the separator. |
| Text.JoinSplit | clopetracker/settings.py:28 | Joining the pieces with the separator gives the input back. |
| Text.SplitJoin | clopetracker/settings.py:28 | For a non-empty list of separator-free pieces, splitting their join gives the same pieces back, so the split is the unique such decomposition. The empty list is excluded because its join `""` splits to `[""]`. |
| Text.Lower | accounts/forms.py:29 | `lower()` keeps the length and maps each ASCII capital to its lowercase letter (code point plus 32). It changes no other character and preserves whitespace positions, so no ASCII capital is left. |
| Text.LowerIdempotent | accounts/forms.py:29-30 | Lowering an already-lowered address changes nothing. |
| PosixPath.RFind | accounts/utils/images.py:56 | The index of the last occurrence of the character, or -1 when it does not occur. |
| PosixPath.SplitExt | accounts/utils/images.py:56 | `splitext` returns `(root, ext)` with `root + ext == p`. `ext` is empty or is one dot followed by no dot and no `/`. A non-empty `ext` leaves a non-dot character in the root's last component. |
| PosixPath.SplitExtOfAppended | accounts/utils/images.py:56-57 | Appending `"." + ext` to such a root makes `splitext` return exactly that root and extension. |
| Settings.StripNonBlank | clopetracker/settings.py:28 | The comprehension keeps at most one entry per piece, and every entry is non-empty and stripped. |
| Settings.StripNonBlankSingle | clopetracker/settings.py:28 | A single piece gives its stripped form, or nothing when that is blank. |
| Settings.StripNonBlankAppend | clopetracker/settings.py:28 | The comprehension distributes over concatenation of the pieces. Together with `StripNonBlankSingle`, this fixes the result as the stripped non-blank pieces in their original order, duplicates included. |
| Settings.ConfigOrEmpty | clopetracker/settings.py:28 | An unset variable reads as the empty string; a set one reads as its value. |
| Settings.ParseCommaList | clopetracker/settings.py:28 | Every parsed entry is non-empty and has no outer whitespace. |
| Settings.AllowedHosts | clopetracker/settings.py:28 | An unset variable (default "") gives no host. Every host is non-empty, stripped and comma-free. |
| Settings.CsrfTrustedOrigins | clopetracker/settings.py:31 | CSRF origins are parsed by exactly the same rules as the allowed hosts. |
| Settings.EmptyListParsesToNothing | clopetracker/settings.py:28 | The empty string parses to the empty list. |
| Settings.ParsedEntriesHaveNoComma | clopetracker/settings.py:28 | No parsed entry contains a comma. |
| Settings.StripNonBlankMembers | clopetracker/settings.py:28 | A string is an entry exactly when it is non-empty and some comma-separated piece strips to it. |
| Settings.ParseJoined | clopetracker/settings.py:28 | Round trip: clean entries written comma-separated parse back to the same list, in the same order. |
| Forms.IsTaken | accounts/forms.py:30 | The `email__iexact` existence test holds exactly when some stored address equals the given one ignoring case. |
| Forms.CleanEmail | accounts/forms.py:8-32 | A blank submission is refused as required. An address the validator refuses is refused as invalid. Otherwise the address is refused as already used exactly when an existing address matches it ignoring case. On success the result is the stripped, lowercased input, and it matches no existing address. |
| Forms.AcceptedEmailKeepsDistinct | accounts/forms.py:29-32 | Adding an accepted address keeps the stored addresses pairwise distinct ignoring case. |
| Forms.CleanEmailIdempotent | accounts/forms.py:29-32 | Cleaning an accepted address again gives the same result. |
| Models.RoleValue | accounts/models.py:23-26 | Each role's stored value fits `max_length=10` and parses back to the same role. |
| Models.ParseRole | accounts/models.py:23-26 | Exactly "admin" and "member" are valid role choices. |
| Models.ParsedRoleRoundTrip | accounts/models.py:23-26 | A valid choice is stored back as the same string. |
| Models.NewUser | accounts/models.py:18-36 | A new user has the declared defaults: role "member", 0 cigarettes, no avatar, no pk. Its fields meet their constraints. |
| Models.CleanPhone | accounts/models.py:18-20 | A blank phone becomes NULL. A non-blank phone is refused exactly when its stripped form is longer than 20 characters or contains a NUL character. The errors of both validators are collected, each present exactly when its condition holds. An accepted phone is the stripped, non-empty input, holds no NUL, and satisfies the record constraint. |
| Models.HasImage | accounts/signals.py:16 | A file field is truthy exactly when its name is non-empty. The same test is used at lines 38, 48, 51 and 74. |
| Models.UploadPath | accounts/models.py:40-42 | A new upload asks for the name `profiles/<file name>`. |
| Models.ProfileImageUrl | accounts/models.py:51-53 | The URL is the stored file exactly when the field is non-empty, and then it names that file. Otherwise it is the static `image/profiles/imageProfilDefaut.png`. |
| Images.ConvertedMode | accounts/utils/images.py:29-30 | "P" and "RGBA" become "RGB"; every other mode is kept, so neither "P" nor "RGBA" remains. Other alpha modes ("LA", "PA", "RGBa") pass through unchanged, as the code converts only those two. |
| Images.ConvertedModeIdempotent | accounts/utils/images.py:29-30 | Converting an already-converted mode changes nothing. |
| Images.CenterCropBox | accounts/utils/images.py:33-37 | The box is a square of side `min(w, h)` inside the picture, with `left` or `top` equal to 0. It is centred: the margins on each axis differ by at most one pixel, the extra pixel on the right or bottom. |
| Images.CenterCropBoxUnique | accounts/utils/images.py:33-37 | Those properties determine the box: any box that has them equals the computed one. |
| Images.Prepare | accounts/utils/images.py:29-40 | The picture after conversion, crop and resize is 512×512 whatever the input size, in the converted mode. |
| Images.Extension | accounts/utils/images.py:44-50 | WebP output is named `webp` and JPEG output `jpg`. Each extension is non-empty and has no dot or `/`. |
| Images.OutputName | accounts/utils/images.py:56-57 | The new name ends in `.` plus the chosen format's extension, after the `splitext` root of the upload's name (or of `avatar`). |
| Images.ContentTypeOf | accounts/utils/images.py:58 | The content type starts with `image/` and is never `image/jpg`. Any extension other than `jpg` is used as is. |
| Images.ContentTypeMatchesFormat | accounts/utils/images.py:58 | The content type derived from the extension is the format's registered type (`image/webp` or `image/jpeg`), never `image/jpg`. |
| Images.OutputNameRoundTrip | accounts/utils/images.py:56-57 | When the upload's basename (default `avatar`) has a character other than a dot, the output name splits back into the upload's root and the new extension. For a basename of dots only, such as `...`, the output `....webp` has no extension. |
| Images.Encode | accounts/utils/images.py:43-52 | The result is WebP exactly when the WebP save succeeds, and otherwise JPEG. The options are exactly WebP with quality 85 and `method=6`, or JPEG with quality 85 and `optimize=True`. The result fails only when both saves raise, and the bytes are what that save produced. |
| Images.Normalise | accounts/utils/images.py:12-67 | Normalisation fails with CannotDecode exactly when decoding fails. It fails with CannotEncode exactly when decoding succeeds but both the WebP and the JPEG save of the prepared picture fail. On success the picture is the decoded, oriented picture after `Prepare`: 512×512, and its mode is neither "P" nor "RGBA". The bytes and options are what `Encode` gives for it, so WebP is chosen whenever WebP succeeds. The name and the content type follow the chosen format. |
| Images.ProcessAvatar | accounts/utils/images.py:12-67 | The step-by-step pipeline, with its WebP-then-JPEG fallback, computes exactly `Normalise`. |
| Signals.PreviousRecord | accounts/signals.py:29-35 | There is no previous record exactly when the instance has no pk or no row has that pk. Otherwise it is that row. |
| Signals.FileToDelete | accounts/signals.py:47-52 | The two marking branches amount to one rule: a file is marked exactly when the previous row had one and the incoming field no longer names it. The mark is that non-empty name. |
| Signals.ProbeFileAsWritten | accounts/signals.py:38 | As written, the `hasattr(..., "file")` test also holds for an already stored file, and raises when that file is missing. |
| Signals.StoredAvatarReprocessedAsWritten | accounts/signals.py:38-49 | As written, an untouched stored avatar passes the test, although it is not a new upload. Its re-saved copy gets a new name, so the untouched file is marked for deletion. |
| Signals.IsNewUpload | accounts/signals.py:37-38 | The intended test at line 38: the field is non-empty and holds an uncommitted upload. A stored file does not pass. |
| Signals.IsAlternativeName | accounts/models.py:40-42 | Storage's renamed form of a taken name: the `splitext` root, `_`, a non-empty random part, then the extension. |
| Signals.AvailableNameFor | accounts/models.py:40-42 | Storage saves under the requested name when it is free, and otherwise under an alternative name. The chosen name is never one already held. |
| Signals.AlternativeNameExists | accounts/models.py:40-42 | Whatever names are held, some alternative name for the requested one is free, so storage can always pick one. |
| Signals.AvailableNameUnderUploadTo | accounts/models.py:40-42 | Whatever name storage picks for an upload path, it stays under `profiles/`. |
| Signals.CommitThenDelete | accounts/signals.py:47-66 | Committing a row and then deleting its previous file (when no longer named) keeps every referenced file stored and unshared. When the delete succeeds, it leaves no unreferenced file. |
| Signals.AvatarLifecycle.StoreFile | accounts/signals.py:42 | `storage.save` writes under the requested name if it is free, otherwise under `<root>_<random><ext>`. It never overwrites, and it adds exactly that name. |
| Signals.AvatarLifecycle.DeleteFileSafely | accounts/signals.py:10-19 | The file is removed only when its name is non-empty, storage holds it and the backend's delete succeeds. Otherwise storage is unchanged. No error escapes. |
| Signals.AvatarLifecycle.PreSave | accounts/signals.py:21-52 | Pre-save never deletes. Only a new upload is normalised: this follows the corrected test `IsNewUpload`, not line 38 as written (see Findings). A normalised upload is stored under a fresh `profiles/` name; on a normaliser failure the original upload is kept. The mark is set exactly as `FileToDelete` says. |
| Signals.AvatarLifecycle.Commit | accounts/models.py:40-42 | A pending upload is written under an available `profiles/` name. A new row gets the assigned pk. The row replaces the one with its pk, and the other fields are kept. |
| Signals.AvatarLifecycle.PostSave | accounts/signals.py:54-66 | A marked file is deleted (if storage holds it and the backend succeeds) and the mark is removed. Without a mark, nothing changes, so a second post-save deletes nothing. |
| Signals.AvatarLifecycle.PostDelete | accounts/signals.py:68-75 | The deleted record's file, if it has one, is removed when storage holds it and the backend succeeds. No error escapes. |
| Signals.AvatarLifecycle.Save | accounts/signals.py:21-66 | A whole save runs pre-save with the corrected test `IsNewUpload`, not line 38 as written (see Findings). It keeps every referenced file stored and unshared. An existing record keeps its pk and a new one gets the assigned pk, and the row with that pk is replaced. An untouched avatar leaves storage unchanged. When the backend delete fails, no file is removed. A superseded or cleared file is gone after commit. No other file is deleted. The new file name follows the normaliser's outcome. With successful deletes, no orphan is left. The only file a save can add is the committed row's own file. |
| Signals.AvatarLifecycle.Delete | accounts/signals.py:68-75 | Deleting a committed record removes its row and (when the backend succeeds) its file, and keeps every invariant. |

## Left out

- Pillow's pixel work (`Image.open`, `exif_transpose`, `convert`, `crop`, LANCZOS `resize`, WebP/JPEG encoding) is an oracle. The model states the geometry and the options, not the pixels, so metadata stripping and orientation are not stated.
- `Image.open` decodes lazily, so a corrupt file can raise in a later step. The model folds every decoding failure into `decode`; `process_avatar`'s caller swallows all of them alike.
- `size=sys.getsizeof(buffer)` is Python object overhead and is not modelled. Nothing is claimed about the returned size.
- Django's signal dispatch and ORM are explicit method calls: `PreSave`, `Commit`, `PostSave`, `DeleteRow`, `PostDelete`. The database's choice of a new pk is a parameter.
- A commit that fails after pre-save is not modelled. In the source the mark then stays on the instance.
- Storage write failures are not modelled; every write succeeds.
- Concurrent saves of the same record are not modelled. The source has no locking.
- Django's upload-name sanitising is not modelled: the basename taken by the upload class, the 255-character truncation and `get_valid_filename`.
- Signals.AvatarLifecycle.StoreFile: the `max_length=100` of the image field is not applied. Storage's shortening of an over-long name, and the `SuspiciousFileOperation` it raises when it cannot shorten, are not modelled.
- Signals.AvailableNameFor: the `max_length=100` truncation of the root before renaming is not modelled; names of any length are accepted.
- Signals.AvatarLifecycle.PreSave: inherits the `StoreFile` gap; an over-long normalised name is stored unshortened.
- Signals.AvatarLifecycle.Commit: inherits the `StoreFile` gap; an over-long upload name is stored unshortened.
- Signals.AvatarLifecycle.Save: inherits the `StoreFile` gap. The database's 100-character limit on the stored name is not checked.
- Signals.AvatarLifecycle.StoreFile: the random part of a renamed file is any string, not exactly 7 alphanumeric characters.
- Signals.AvatarLifecycle.Save: proved under the ownership discipline `KeepsOwnership`. The incoming field must be empty, a new upload with a bare file name, or the record's own stored file. It must also hold no pending mark. A record that takes over another record's stored file can make the source delete a file still in use.
- Signals.AvatarLifecycle.Delete: proved for an instance equal to its committed row.
- Models.ProfileImageUrl: returns which file the URL points to. The URL strings built by `storage.url` and `static` are not modelled.
- Text.Lower: lowercases ASCII letters only. Python's full Unicode case mapping is not modelled, so `Forms.CleanEmail` and `Forms.IsTaken` compare case-insensitively over ASCII only.
- Forms.CleanEmail: the email address syntax check is a parameter, not Django's validator. The validator is run on the stripped submission, as the form field does.
- Models.User: `pk` is a positive integer. A pk of 0, which is falsy in Python, cannot be represented.
- Models.User: `cigarettes_smoked` is a `nat`; the database's upper bound for a positive integer field is not modelled.
- Models.User: `birth_date`, `group_id`, the username and the password fields are not modelled. They take no part in the avatar pipeline.
- An upload object whose `name` attribute is `None` is not modelled. (The `TypeError` it causes is caught by pre-save anyway.)
- The following are not part of this model, since they hold no modellable logic or are framework configuration:
  - password validation and hashing in `UserCreationForm`;
  - `accounts/views.py`, `accounts/admin.py`, `clopetracker/urls.py`;
  - the rest of `clopetracker/settings.py`: reading the environment, the database URL, middleware, templates and storages.

## Findings

| source | as written | input that shows it | evidently intended | confidence | as-written member | corrected member |
|---|---|---|---|---|---|---|
| accounts/signals.py:38 | `hasattr(instance.profile_image, "file")` is true for any non-empty field whose file storage can open, not only for a new upload. Saving a user with an untouched avatar therefore re-normalises the stored file and writes it under a new name. The post-save hook then deletes the untouched original. If the stored file is missing, the test raises and the save fails. | A user whose row holds `profiles/me.webp` (present in storage) saves a phone change. The re-encoded copy is stored as `profiles/me_<random>.webp`, and `profiles/me.webp` is marked and deleted. The first such save follows signup directly: `login(request, user)` at accounts/views.py:18 saves `last_login` on the fresh user. That save writes only `last_login`, so the row keeps the deleted name and the new copy is left unreferenced; the user's next save then raises at the test. | Normalise only a new, uncommitted upload (the comment on line 37 says so). An update that does not touch the image leaves the stored file alone. The corrected test is `Signals.IsNewUpload`; `PreSave` uses it, and `Signals.AvatarLifecycle.Save` proves that an untouched avatar leaves storage unchanged. | medium; not executed (depends on Django's `FieldFile.file` opening the stored file) | Signals.StoredAvatarReprocessedAsWritten | Signals.AvatarLifecycle.PreSave |
