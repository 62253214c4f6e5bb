/**
 * The `User` record of accounts/models.py, reduced to the fields the avatar
 * pipeline and its forms use, and the `profile_image_url` property.
 */
module Models {
  import opened Wrappers
  import opened Text

  /** `ROLE_CHOICES`: the two values the `role` column may take. */
  datatype Role = Admin | Member

  const RoleMaxLength: nat := 10
  const PhoneMaxLength: nat := 20

  /** The stored value of a role choice. */
  function RoleValue(role: Role): (value: string)
    ensures |value| <= RoleMaxLength
    ensures ParseRole(value) == Some(role)
  {
    match role
    case Admin => "admin"
    case Member => "member"
  }

  /** The choices check: only "admin" and "member" name a role. */
  function ParseRole(value: string): (role: Option<Role>)
    ensures role.Some? <==> value == "admin" || value == "member"
  {
    if value == "admin" then Some(Admin)
    else if value == "member" then Some(Member)
    else None
  }

  /** A parsed choice is stored back as the same string. */
  lemma ParsedRoleRoundTrip(value: string)
    requires ParseRole(value).Some?
    ensures RoleValue(ParseRole(value).value) == value
  {
  }

  /** An AutoField primary key: assigned by the database, starting at 1. */
  type Pk = x: int | x > 0 witness 1

  /** A file received from the form: its name attribute (None when the object has none) and its bytes. */
  datatype Upload = Upload(name: Option<string>, content: seq<bv8>)

  /**
   * The value of the `profile_image` field (Django's FieldFile): the file's
   * name, and the uploaded file still to be written when the field holds a
   * new, uncommitted upload.
   */
  datatype ImageFile = ImageFile(name: string, newUpload: Option<Upload>)

  /** A FieldFile is truthy exactly when its name is non-empty. */
  predicate HasImage(f: ImageFile) {
    f.name != ""
  }

  const NoImage := ImageFile("", None)

  datatype User = User(
    pk: Option<Pk>,
    profileImage: ImageFile,
    role: Role,
    phone: Option<string>,
    cigarettesSmoked: nat)

  /** The column constraints: the phone, when present, fits its 20 characters. */
  predicate ValidFields(u: User) {
    u.phone.None? || |u.phone.value| <= PhoneMaxLength
  }

  /** A user as first built: the declared defaults and no avatar. */
  function NewUser(phone: Option<string>): (u: User)
    requires phone.None? || |phone.value| <= PhoneMaxLength
    ensures ValidFields(u) && u.pk.None? && !HasImage(u.profileImage)
    ensures u.role == Member && u.cigarettesSmoked == 0 && u.phone == phone
  {
    User(None, NoImage, Member, phone, 0)
  }

  /** The two validators of the generated form field: the length limit and the ban on NUL characters. */
  datatype PhoneError = PhoneTooLong | NullCharacter

  /**
   * The form field generated for `phone` (max_length=20, null=True,
   * blank=True): the submission is stripped and a blank one is stored as
   * NULL. Otherwise every validator runs and the field is refused with all
   * the errors they raise: more than 20 characters, or a NUL character.
   */
  function CleanPhone(submitted: string): (r: Result<Option<string>, set<PhoneError>>)
    ensures r == Success(None) <==> AllSpace(submitted)
    ensures r.Failure? <==> !AllSpace(submitted) && (|Strip(submitted)| > PhoneMaxLength || '\0' in Strip(submitted))
    ensures r.Failure? ==>
      && r.error != {}
      && (PhoneTooLong in r.error <==> |Strip(submitted)| > PhoneMaxLength)
      && (NullCharacter in r.error <==> '\0' in Strip(submitted))
    ensures r.Success? && r.value.Some? ==> r.value.value == Strip(submitted) && r.value.value != "" && '\0' !in r.value.value
    ensures r.Success? ==> ValidFields(NewUser(r.value))
  {
    var value := Strip(submitted);
    if value == "" then Success(None)
    else
      var errors := (if |value| > PhoneMaxLength then {PhoneTooLong} else {})
                  + (if '\0' in value then {NullCharacter} else {});
      if errors != {} then Failure(errors) else Success(Some(value))
  }

  /** `upload_to="profiles/"`: the directory new avatars are written under. */
  const UploadTo := "profiles/"

  /** The storage name a new upload asks for. */
  function UploadPath(filename: string): (path: string)
    ensures |path| == |UploadTo| + |filename|
    ensures path[..|UploadTo|] == UploadTo && path[|UploadTo|..] == filename
  {
    UploadTo + filename
  }

  const DefaultAvatarPath := "image/profiles/imageProfilDefaut.png"

  /** What `profile_image_url` resolves: a stored media file, or a bundled static file. */
  datatype AvatarUrl = MediaUrl(name: string) | StaticUrl(path: string)

  /**
   * `profile_image_url`: the stored file when the user has one, the default
   * static image otherwise; never a media URL for an empty name.
   */
  function ProfileImageUrl(u: User): (url: AvatarUrl)
    ensures url.MediaUrl? <==> HasImage(u.profileImage)
    ensures url.MediaUrl? ==> url.name == u.profileImage.name && url.name != ""
    ensures url.StaticUrl? ==> url.path == DefaultAvatarPath
  {
    if HasImage(u.profileImage) then MediaUrl(u.profileImage.name)
    else StaticUrl(DefaultAvatarPath)
  }
}
