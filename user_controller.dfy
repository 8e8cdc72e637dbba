/** User registration, `registerUser` of src/controllers/user.controller.js:
    the required-field, uniqueness, password and avatar checks, the uploads,
    and the stored and returned user. */
module UserController {
  import opened Common
  import opened Records
  import Store
  import Database

  /** An upload to the media host: its URL, or `None` when it fails. */
  type Uploader = string -> Option<string>

  // ------------------------------------------------------------ password rule

  predicate IsUpper(c: char) { 'A' <= c <= 'Z' }

  /** The class `[!@#$%^&*()_+\-=[\]{};':"\\|,.<>/?]`. */
  predicate IsSpecial(c: char) {
    c in {'!', '@', '#', '$', '%', '^', '&', '*', '(', ')', '_', '+', '-', '=', '[', ']', '{', '}', ';', '\'', ':', '\"', '\\', '|', ',', '.', '<', '>', '/', '?'}
  }

  /** The characters a JavaScript `.` does not match. */
  predicate IsLineTerminator(c: char) {
    c == '\n' || c == '\r' || c == '\U{2028}' || c == '\U{2029}'
  }

  predicate Dot(c: char) { !IsLineTerminator(c) }

  /** The lookahead `(?=.*[cls])` at the start of `s`: some run of `.`
      characters followed by one character of the class. */
  predicate AnyThen(s: string, cls: char -> bool) {
    s != [] && (cls(s[0]) || (Dot(s[0]) && AnyThen(s[1..], cls)))
  }

  /** The UTF-16 code units of a character: two for a character outside the
      Basic Multilingual Plane. A regular expression without the `u` flag
      works on code units, so `.` matches each half of such a character. */
  function Units(c: char): (n: nat)
    ensures 1 <= n <= 2
  {
    if c as int >= 0x10000 then 2 else 1
  }

  /** The `length` of a JavaScript string: its UTF-16 code units. */
  function Utf16Length(s: string): (n: nat)
    ensures |s| <= n <= 2 * |s|
  {
    if s == [] then 0 else Units(s[0]) + Utf16Length(s[1..])
  }

  /** Only characters outside the Basic Multilingual Plane make the two
      lengths differ. */
  lemma {:induction false} Utf16LengthOfBmp(s: string)
    ensures Utf16Length(s) == |s| <==> forall i :: 0 <= i < |s| ==> s[i] as int < 0x10000
  {
    if s != [] {
      Utf16LengthOfBmp(s[1..]);
      assert forall i :: 1 <= i < |s| ==> s[i] == s[1..][i - 1];
    }
  }

  /** `.{n,}$`: at least `n` code units, each matched by `.`, then the end. */
  predicate DotsThenEnd(s: string, n: nat) {
    if s == [] then n == 0
    else Dot(s[0]) && DotsThenEnd(s[1..], if n > Units(s[0]) then n - Units(s[0]) else 0)
  }

  /** `regrex.test(password)` for `^(?=.*[A-Z])(?=.*[special]).{8,}$`. */
  predicate PasswordMatches(s: string) {
    AnyThen(s, IsUpper) && AnyThen(s, IsSpecial) && DotsThenEnd(s, 8)
  }

  /** The rule in words: eight or more UTF-16 code units, an upper-case
      letter, a special character, and no line break. */
  predicate PasswordPolicy(s: string) {
    Utf16Length(s) >= 8 &&
    (exists i :: 0 <= i < |s| && IsUpper(s[i])) &&
    (exists i :: 0 <= i < |s| && IsSpecial(s[i])) &&
    forall i :: 0 <= i < |s| ==> Dot(s[i])
  }

  lemma {:induction false} AnyThenMeans(s: string, cls: char -> bool)
    ensures AnyThen(s, cls) <==> exists i :: 0 <= i < |s| && cls(s[i]) && forall k :: 0 <= k < i ==> Dot(s[k])
  {
    if s != [] {
      AnyThenMeans(s[1..], cls);
      if AnyThen(s, cls) && !cls(s[0]) {
        var i :| 0 <= i < |s[1..]| && cls(s[1..][i]) && forall k :: 0 <= k < i ==> Dot(s[1..][k]);
        assert cls(s[i + 1]) && forall k :: 0 <= k < i + 1 ==> Dot(s[k]);
      }
      if !AnyThen(s, cls) {
        forall i | 0 <= i < |s| && cls(s[i]) ensures exists k :: 0 <= k < i && !Dot(s[k]) {
          assert i > 0;
          if Dot(s[0]) {
            assert cls(s[1..][i - 1]);
            var k :| 0 <= k < i - 1 && !Dot(s[1..][k]);
            assert !Dot(s[k + 1]);
          } else {
            assert !Dot(s[0]);
          }
        }
      }
    }
  }

  lemma {:induction false} DotsThenEndMeans(s: string, n: nat)
    ensures DotsThenEnd(s, n) <==> Utf16Length(s) >= n && forall k :: 0 <= k < |s| ==> Dot(s[k])
  {
    if s != [] {
      DotsThenEndMeans(s[1..], if n > Units(s[0]) then n - Units(s[0]) else 0);
      if forall k :: 0 <= k < |s| ==> Dot(s[k]) {
        assert forall k :: 0 <= k < |s[1..]| ==> Dot(s[1..][k]) by {
          forall k | 0 <= k < |s[1..]| ensures Dot(s[1..][k]) { assert s[1..][k] == s[k + 1]; }
        }
      }
      if DotsThenEnd(s, n) {
        forall k | 0 <= k < |s| ensures Dot(s[k]) {
          if k > 0 { assert s[k] == s[1..][k - 1]; }
        }
      }
    }
  }

  /** The regular expression accepts exactly the passwords the rule in words
      describes. */
  lemma PasswordMatchesPolicy(s: string)
    ensures PasswordMatches(s) <==> PasswordPolicy(s)
  {
    AnyThenMeans(s, IsUpper);
    AnyThenMeans(s, IsSpecial);
    DotsThenEndMeans(s, 8);
  }

  lemma PasswordAccepted()
    ensures PasswordMatches("Secret#12")
  {
    var s := "Secret#12";
    assert IsSpecial(s[6]);
    assert AnyThen(s[6..], IsSpecial);
    assert AnyThen(s[5..], IsSpecial);
    assert AnyThen(s[4..], IsSpecial);
    assert AnyThen(s[3..], IsSpecial);
    assert AnyThen(s[2..], IsSpecial);
    assert AnyThen(s[1..], IsSpecial);
    SampleLength();
  }

  /** The length part of the accepted sample. */
  lemma SampleLength()
    ensures DotsThenEnd("Secret#12", 8)
  {
    var s := "Secret#12";
    assert forall i :: 0 <= i < |s| ==> s[i] as int < 0x10000 && Dot(s[i]);
    Utf16LengthOfBmp(s);
    DotsThenEndMeans(s, 8);
  }

  /** Length is counted in code units: "A#" and three emoji are five
      characters but eight code units, and the password is accepted. */
  lemma PasswordCountsCodeUnits()
    ensures |"A#\U{1F600}\U{1F600}\U{1F600}"| == 5
    ensures PasswordMatches("A#\U{1F600}\U{1F600}\U{1F600}")
  {
    var s := "A#\U{1F600}\U{1F600}\U{1F600}";
    assert IsSpecial(s[1]);
    assert AnyThen(s[1..], IsSpecial);
    assert DotsThenEnd(s[4..], 2);
    assert DotsThenEnd(s[3..], 4);
    assert DotsThenEnd(s[2..], 6);
    assert DotsThenEnd(s[1..], 7);
  }

  /** Each requirement on its own decides: a password missing only the
      capital, only the special character, only the length, or containing a
      line break is refused. */
  lemma PasswordNeedsCapital()
    ensures !PasswordMatches("secret#12")
  {
    PasswordMatchesPolicy("secret#12");
  }

  /** No letter or digit is a special character. */
  lemma SpecialIsNotAlphanumeric(c: char)
    requires 'a' <= c <= 'z' || 'A' <= c <= 'Z' || '0' <= c <= '9'
    ensures !IsSpecial(c)
  {
  }

  lemma PasswordNeedsSpecial()
    ensures !PasswordMatches("Secret123")
  {
    var s := "Secret123";
    SpecialIsNotAlphanumeric('S');
    SpecialIsNotAlphanumeric('e');
    SpecialIsNotAlphanumeric('c');
    SpecialIsNotAlphanumeric('r');
    SpecialIsNotAlphanumeric('t');
    SpecialIsNotAlphanumeric('1');
    SpecialIsNotAlphanumeric('2');
    SpecialIsNotAlphanumeric('3');
    assert forall i :: 0 <= i < |s| ==> !IsSpecial(s[i]);
    AnyThenMeans(s, IsSpecial);
  }

  lemma PasswordNeedsLength()
    ensures !PasswordMatches("Sec#12")
  {
    PasswordMatchesPolicy("Sec#12");
  }

  lemma PasswordRefusesLineBreak()
    ensures !PasswordMatches("Secret#\n12")
  {
    PasswordMatchesPolicy("Secret#\n12");
    assert !Dot("Secret#\n12"[7]);
  }

  // ------------------------------------------------------------ registerUser

  /** The request fields, each absent or a string. */
  datatype Form = Form(userName: Option<string>, email: Option<string>, password: Option<string>, fullName: Option<string>)

  /** `req.files` as the upload middleware leaves it: for each of the two
      fields, absent or the list of stored file paths. */
  datatype Files = Files(avatar: Option<seq<string>>, coverImage: Option<seq<string>>)

  /** The user as returned: everything but `password` and `refreshToken`. */
  datatype PublicUser = PublicUser(id: Id, userName: string, email: string, fullName: string, avatar: string,
                                   coverImage: string, watchHistory: seq<Id>, createdAt: nat)

  const AllFieldsMessage := "All fields are necessary"
  const DuplicateMessage := "User already exist with this username/email"
  const PasswordMessage := "password should be 8 char long and have atleast  1 capital and atleast 1 special character "
  const AvatarMessage := "avatar is required"
  const UploadMessage := "cloudinary failed to upload avatar"
  const NoAvatarField := "TypeError: Cannot read properties of undefined (reading '0')"

  predicate AllGiven(f: Form) {
    Truthy(f.userName) && Truthy(f.email) && Truthy(f.password) && Truthy(f.fullName)
  }

  function NameOrEmail(userName: string, email: string): User -> bool {
    (u: User) => u.userName == userName || u.email == email
  }

  /** `findOne({ $or: [{ userName }, { email }] })` finds a user. */
  predicate Taken(users: seq<User>, userName: string, email: string) {
    Store.IndexWhere(users, NameOrEmail(userName, email)).Some?
  }

  lemma TakenMeans(users: seq<User>, userName: string, email: string)
    ensures Taken(users, userName, email) <==> exists u :: u in users && (u.userName == userName || u.email == email)
  {
    if !Taken(users, userName, email) {
      forall u | u in users ensures !(u.userName == userName || u.email == email) {
        var j :| 0 <= j < |users| && users[j] == u;
        assert !NameOrEmail(userName, email)(users[j]);
      }
    }
  }

  /** `req.files?.avatar[0]?.path`: undefined without files or without a
      first avatar, a TypeError when files arrived but no avatar field. */
  function AvatarPath(files: Option<Files>): (r: Result<Option<string>>)
    ensures r.Err? <==> files.Some? && files.value.avatar.None?
    ensures r.Err? ==> r.error == Crash(NoAvatarField)
    ensures r.Ok? && r.value.Some? <==> files.Some? && files.value.avatar.Some? && files.value.avatar.value != []
    ensures r.Ok? && r.value.Some? ==> r.value.value == files.value.avatar.value[0]
  {
    match files
    case None => Ok(None)
    case Some(fs) =>
      match fs.avatar
      case None => Err(Crash(NoAvatarField))
      case Some(paths) => if paths == [] then Ok(None) else Ok(Some(paths[0]))
  }

  /** The stored cover image: the first cover file's URL, or "" when there is
      no cover file or its upload fails. */
  function CoverUrl(files: Option<Files>, upload: Uploader): (url: string)
    ensures url != "" ==> files.Some? && files.value.coverImage.Some? && files.value.coverImage.value != [] &&
                          upload(files.value.coverImage.value[0]) == Some(url)
    ensures files.None? || files.value.coverImage.None? || files.value.coverImage.value == [] ==> url == ""
    ensures (files.Some? && files.value.coverImage.Some? && files.value.coverImage.value != [] &&
             upload(files.value.coverImage.value[0]).None?) ==> url == ""
  {
    if files.Some? && files.value.coverImage.Some? && |files.value.coverImage.value| > 0 then
      match upload(files.value.coverImage.value[0])
      case Some(u) => u
      case None => ""
    else ""
  }

  function PublicView(u: User): PublicUser {
    PublicUser(u.id, u.userName, u.email, u.fullName, u.avatar, u.coverImage, u.watchHistory, u.createdAt)
  }

  /** The `select("-password -refreshToken")` view leaves out exactly those
      two fields: two users look alike iff they differ at most there. */
  lemma PublicViewDropsSecrets(u: User, w: User)
    ensures PublicView(u) == PublicView(w) <==> u.(password := w.password, refreshToken := w.refreshToken) == w
  {
  }

  /** No two users share a user name or an email, which the uniqueness check
      maintains. */
  ghost predicate DistinctNames(users: seq<User>) {
    forall i, j :: 0 <= i < j < |users| ==> users[i].userName != users[j].userName && users[i].email != users[j].email
  }

  lemma {:induction false} RegisterKeepsDistinct(users: seq<User>, u: User)
    requires DistinctNames(users) && !Taken(users, u.userName, u.email)
    ensures DistinctNames(users + [u])
  {
    TakenMeans(users, u.userName, u.email);
    var r := users + [u];
    forall i, j | 0 <= i < j < |r| ensures r[i].userName != r[j].userName && r[i].email != r[j].email {
      if j == |users| {
        assert r[i] in users;
      } else {
        assert r[i] == users[i] && r[j] == users[j];
      }
    }
  }

  /** `registerUser`. The checks run in this order: all four fields given,
      user name and email free, password rule, the avatar path (read before
      the cover image is uploaded), avatar given, avatar uploaded. The
      re-read of the created user always finds it, so "something went wrong
      while creating user" is never sent. */
  method RegisterUser(db: Database.Db, form: Form, files: Option<Files>, upload: Uploader, newId: Id, now: nat)
    returns (r: Result<PublicUser>)
    requires db.Valid() && !Store.HasId(db.users, UserIdOf, newId)
    modifies db`users
    ensures db.Valid()
    ensures !AllGiven(form) ==> r == Err(ApiError(400, AllFieldsMessage))
    ensures AllGiven(form) && Taken(old(db.users), form.userName.value, form.email.value) ==>
              r == Err(ApiError(400, DuplicateMessage))
    ensures AllGiven(form) && !Taken(old(db.users), form.userName.value, form.email.value) && !PasswordPolicy(form.password.value) ==>
              r == Err(ApiError(400, PasswordMessage))
    ensures AllGiven(form) && !Taken(old(db.users), form.userName.value, form.email.value) && PasswordPolicy(form.password.value) ==>
              (AvatarPath(files).Err? ==> r == Err(Crash(NoAvatarField))) &&
              (AvatarPath(files).Ok? && !Truthy(AvatarPath(files).value) ==> r == Err(ApiError(400, AvatarMessage))) &&
              (AvatarPath(files).Ok? && Truthy(AvatarPath(files).value) && upload(AvatarPath(files).value.value).None? ==>
                 r == Err(ApiError(500, UploadMessage)))
    ensures r.Ok? <==> AllGiven(form) && !Taken(old(db.users), form.userName.value, form.email.value) &&
                       PasswordPolicy(form.password.value) && AvatarPath(files).Ok? && Truthy(AvatarPath(files).value) &&
                       upload(AvatarPath(files).value.value).Some?
    ensures r.Ok? ==>
              var created := User(newId, form.userName.value, form.email.value, form.fullName.value,
                                  upload(AvatarPath(files).value.value).value, CoverUrl(files, upload),
                                  form.password.value, None, [], now);
              db.users == old(db.users) + [created] && r.value == PublicView(created)
    ensures r.Err? ==> db.users == old(db.users)
    ensures DistinctNames(old(db.users)) ==> DistinctNames(db.users)
  {
    if !AllGiven(form) {
      return Err(ApiError(400, AllFieldsMessage));
    }
    var userName, email, password, fullName := form.userName.value, form.email.value, form.password.value, form.fullName.value;
    if Taken(db.users, userName, email) {
      return Err(ApiError(400, DuplicateMessage));
    }
    PasswordMatchesPolicy(password);
    if !PasswordMatches(password) {
      return Err(ApiError(400, PasswordMessage));
    }
    var avatarPath := AvatarPath(files);
    if avatarPath.Err? {
      return Err(avatarPath.error);
    }
    var coverImageUrl := CoverUrl(files, upload);
    if !Truthy(avatarPath.value) {
      return Err(ApiError(400, AvatarMessage));
    }
    var avatar := upload(avatarPath.value.value);
    if avatar.None? {
      return Err(ApiError(500, UploadMessage));
    }
    var user := User(newId, userName, email, fullName, avatar.value, coverImageUrl, password, None, [], now);
    Store.UniqueAppend(db.users, UserIdOf, user);
    if DistinctNames(db.users) {
      RegisterKeepsDistinct(db.users, user);
    }
    db.users := db.users + [user];
    assert db.users[|db.users| - 1] == user;
    if Store.FindById(db.users, UserIdOf, newId).None? {
      assert false;
    }
    return Ok(PublicView(user));
  }
}
