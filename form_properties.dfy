/** What the registration form's schema promises, field by field, for
    every record and for every URL and e-mail recogniser. */
module FormProperties {
  import opened Values
  import opened Rules
  import opened Paths
  import opened Engine
  import opened Form

  /** `^\d{n}$` stated directly: exactly `n` characters, all ASCII digits. */
  predicate DecimalDigits(s: string, n: nat)
  {
    |s| == n && forall i :: 0 <= i < |s| ==> IsAsciiDigit(s[i])
  }

  // Chain-level facts: what each named chain says about one value. The
  // field-level lemmas below lift them to the messages of a whole record.

  /** A chain that starts with `required` reports that message for a missing value. */
  lemma RequiredFirst(chain: seq<Rule>, path: string, v: Value, rc: Recognisers)
    requires |chain| > 0 && chain[0].Required? && IsMissing(v)
    ensures RunChain(chain, path, v, rc) == Fail(chain[0].message)
  {
  }

  /** `string().required(m)`: missing is `m`, a string passes, any other
      value fails the string type check. */
  lemma RequiredTextOutcome(m: string, path: string, v: Value, rc: Recognisers)
    ensures IsMissing(v) ==> RunChain([Required(m), TypeOf(StringKind)], path, v, rc) == Fail(m)
    ensures v.Str? && v.s != "" ==> RunChain([Required(m), TypeOf(StringKind)], path, v, rc) == Pass
    ensures !IsMissing(v) && !HasKind(v, StringKind) ==>
      RunChain([Required(m), TypeOf(StringKind)], path, v, rc) == Fail(TypeMessage(path, StringKind))
  {
  }

  lemma SkillsChainOutcome(v: Value, rc: Recognisers)
    ensures IsMissing(v) ==> RunChain(SkillsChain, "skills", v, rc) == Fail("At least one skill is required")
    ensures v.List? && v.items != [] ==> RunChain(SkillsChain, "skills", v, rc) == Pass
    ensures !IsMissing(v) && !HasKind(v, ArrayKind) ==> RunChain(SkillsChain, "skills", v, rc) == Fail(TypeMessage("skills", ArrayKind))
  {
  }

  lemma MobileNumberChainOutcome(v: Value, rc: Recognisers)
    ensures v.Str? && v.s != "" ==>
      RunChain(MobileNumberChain, "mobileNumber", v, rc)
        == if DecimalDigits(v.s, 10) then Pass else Fail("Invalid mobile number")
  {
    if v.Str? {
      DigitRunIff(v.s, 10);
    }
  }

  lemma PinCodeChainOutcome(v: Value, rc: Recognisers)
    ensures v == Absent ==> RunChain(PinCodeChain, "pinCode", v, rc) == Pass
    ensures v.Str? ==> RunChain(PinCodeChain, "pinCode", v, rc) == if DecimalDigits(v.s, 6) then Pass else Fail("Invalid pin code")
  {
    if v.Str? {
      DigitRunIff(v.s, 6);
    }
  }

  lemma EmailChainOutcome(v: Value, rc: Recognisers)
    ensures v.Str? && v.s != "" ==>
      RunChain(EmailChain, "email", v, rc) == if rc.isEmail(v.s) then Pass else Fail("Invalid email")
  {
  }

  lemma ExperienceChainOutcome(v: Value, rc: Recognisers)
    ensures v.Num? ==>
      RunChain(ExperienceChain, "experience", v, rc)
        == if v.n < 0 then Fail("experience must be greater than or equal to 0")
           else if v.n > 10 then Fail("experience must be less than or equal to 10")
           else Pass
  {
    if v.Num? {
      var c := ExperienceChain;
      assert Check(c[0], "experience", v, rc) == Pass;
      assert Check(c[1], "experience", v, rc) == Pass;
      assert RunChain(c, "experience", v, rc) == RunChain(c[2..], "experience", v, rc);
    }
  }

  lemma AboutMeChainOutcome(v: Value, rc: Recognisers)
    ensures v.Str? && v.s != "" ==>
      RunChain(AboutMeChain, "aboutMe", v, rc)
        == if Utf16Length(v.s) <= 250 then Pass else Fail("Description should be at most 250 characters")
  {
    if v.Str? && v.s != "" {
      var c := AboutMeChain;
      assert Check(c[0], "aboutMe", v, rc) == Pass;
      assert Check(c[1], "aboutMe", v, rc) == Pass;
      assert RunChain(c, "aboutMe", v, rc) == RunChain(c[2..], "aboutMe", v, rc);
    }
  }

  lemma AgreeTermsChainOutcome(v: Value, rc: Recognisers)
    ensures v == Bool(false) ==> RunChain(AgreeTermsChain, "agreeTerms", v, rc) == Fail("You must agree to the terms and conditions")
    ensures v == Bool(true) || v == Absent ==> RunChain(AgreeTermsChain, "agreeTerms", v, rc) == Pass
    ensures !HasKind(v, BooleanKind) ==> RunChain(AgreeTermsChain, "agreeTerms", v, rc) == Fail(TypeMessage("agreeTerms", BooleanKind))
  {
  }

  lemma WebsiteLinkOnlineOutcome(v: Value, rc: Recognisers)
    ensures v.Str? && v.s != "" ==>
      RunChain(WebsiteLinkOnline, "websiteLink", v, rc) == if rc.isUrl(v.s) then Pass else Fail("Invalid website link")
  {
  }

  lemma WebsiteLinkBaseOutcome(v: Value, rc: Recognisers)
    ensures RunChain(WebsiteLinkBase, "websiteLink", v, rc)
         == if HasKind(v, StringKind) then Pass else Fail(TypeMessage("websiteLink", StringKind))
  {
  }

  lemma FileOfflineOutcome(v: Value, rc: Recognisers)
    ensures v.FileRef? ==>
      RunChain(FileOffline, "file", v, rc)
        == if v.mime == "application/pdf" || v.mime == "application/msword" then Pass else Fail("Invalid file format")
    ensures !IsMissing(v) && !v.FileRef? ==> RunChain(FileOffline, "file", v, rc) == Fail("Invalid file format")
  {
  }

  lemma ProjectsChainOutcome(v: Value, rc: Recognisers)
    ensures v.List? ==>
      RunChain(ProjectsChain, "projects", v, rc) == if |v.items| == 0 then Fail("At least one project is required") else Pass
    ensures !HasKind(v, ArrayKind) ==> RunChain(ProjectsChain, "projects", v, rc) == Fail(TypeMessage("projects", ArrayKind))
  {
  }

  lemma OptionalTextOutcome(path: string, v: Value, rc: Recognisers)
    ensures RunChain(OptionalTextChain, path, v, rc) == if HasKind(v, StringKind) then Pass else Fail(TypeMessage(path, StringKind))
  {
  }

  /** Field `i` reports nothing beneath its name except at the name itself
      (always so for a field that is not an array). */
  lemma OnlyOwnKey(rec: Record, rc: Recognisers, i: nat, f: Field)
    requires i < |FormSchema| && FormSchema[i] == f
    requires f.spec.ArrayOf? ==> !Get(rec, f.name).List? || Get(rec, f.name).items == []
    ensures forall k :: Under(k, f.name) && k != f.name ==> MessageAt(rec, rc, k) == Pass
  {
    FieldOwnKey(f, rec, rc);
    forall k | Under(k, f.name) && k != f.name
      ensures MessageAt(rec, rc, k) == Pass
    {
      MessageOfField(rec, rc, i, f, k);
    }
  }

  /** A field whose own chain passes and that has no elements to check
      reports nothing at or beneath its name. */
  lemma SilentField(rec: Record, rc: Recognisers, i: nat, f: Field)
    requires i < |FormSchema| && FormSchema[i] == f
    requires f.spec.ArrayOf? ==> !Get(rec, f.name).List? || Get(rec, f.name).items == []
    requires RunChain(ChainFor(f, rec), f.name, Get(rec, f.name), rc) == Pass
    ensures forall k :: Under(k, f.name) ==> MessageAt(rec, rc, k) == Pass
  {
    OwnMessage(rec, rc, i, f);
    OnlyOwnKey(rec, rc, i, f);
  }

  /** A field whose chain starts with `required` shows exactly that message
      for an absent or empty value, and nothing else beneath its name. The
      conditional fields are covered by their own lemmas below. */
  lemma MissingRequiredField(rec: Record, rc: Recognisers, i: nat, f: Field)
    requires i < |FormSchema| && FormSchema[i] == f && !f.spec.When?
    requires |ChainFor(f, rec)| > 0 && ChainFor(f, rec)[0].Required? && IsMissing(Get(rec, f.name))
    ensures MessageAt(rec, rc, f.name) == Fail(ChainFor(f, rec)[0].message)
    ensures forall k :: Under(k, f.name) && k != f.name ==> MessageAt(rec, rc, k) == Pass
  {
    OwnMessage(rec, rc, i, f);
    RequiredFirst(ChainFor(f, rec), f.name, Get(rec, f.name), rc);
    OnlyOwnKey(rec, rc, i, f);
  }

  /** `firstName`, `lastName`, `dob`, `cvType` and `profilePhoto` are
      required strings: missing shows the field's "... is required", any
      non-empty string passes, another shape fails the string type check. */
  lemma FirstNameRules(rec: Record, rc: Recognisers)
    ensures IsMissing(Get(rec, "firstName")) ==> MessageAt(rec, rc, "firstName") == Fail("First Name is required")
    ensures Get(rec, "firstName").Str? && Get(rec, "firstName").s != "" ==> MessageAt(rec, rc, "firstName") == Pass
    ensures !IsMissing(Get(rec, "firstName")) && !HasKind(Get(rec, "firstName"), StringKind) ==>
      MessageAt(rec, rc, "firstName") == Fail(TypeMessage("firstName", StringKind))
  {
    OwnMessage(rec, rc, 0, FirstNameField);
    RequiredTextOutcome("First Name is required", "firstName", Get(rec, "firstName"), rc);
  }

  lemma LastNameRules(rec: Record, rc: Recognisers)
    ensures IsMissing(Get(rec, "lastName")) ==> MessageAt(rec, rc, "lastName") == Fail("Last Name is required")
    ensures Get(rec, "lastName").Str? && Get(rec, "lastName").s != "" ==> MessageAt(rec, rc, "lastName") == Pass
    ensures !IsMissing(Get(rec, "lastName")) && !HasKind(Get(rec, "lastName"), StringKind) ==>
      MessageAt(rec, rc, "lastName") == Fail(TypeMessage("lastName", StringKind))
  {
    OwnMessage(rec, rc, 1, LastNameField);
    RequiredTextOutcome("Last Name is required", "lastName", Get(rec, "lastName"), rc);
  }

  lemma DobRules(rec: Record, rc: Recognisers)
    ensures IsMissing(Get(rec, "dob")) ==> MessageAt(rec, rc, "dob") == Fail("DOB is required")
    ensures Get(rec, "dob").Str? && Get(rec, "dob").s != "" ==> MessageAt(rec, rc, "dob") == Pass
    ensures !IsMissing(Get(rec, "dob")) && !HasKind(Get(rec, "dob"), StringKind) ==>
      MessageAt(rec, rc, "dob") == Fail(TypeMessage("dob", StringKind))
  {
    OwnMessage(rec, rc, 3, DobField);
    RequiredTextOutcome("DOB is required", "dob", Get(rec, "dob"), rc);
  }

  lemma CvTypeRules(rec: Record, rc: Recognisers)
    ensures IsMissing(Get(rec, "cvType")) ==> MessageAt(rec, rc, "cvType") == Fail("CV Type is required")
    ensures Get(rec, "cvType").Str? && Get(rec, "cvType").s != "" ==> MessageAt(rec, rc, "cvType") == Pass
    ensures !IsMissing(Get(rec, "cvType")) && !HasKind(Get(rec, "cvType"), StringKind) ==>
      MessageAt(rec, rc, "cvType") == Fail(TypeMessage("cvType", StringKind))
  {
    OwnMessage(rec, rc, 6, CvTypeField);
    RequiredTextOutcome("CV Type is required", "cvType", Get(rec, "cvType"), rc);
  }

  lemma ProfilePhotoRules(rec: Record, rc: Recognisers)
    ensures IsMissing(Get(rec, "profilePhoto")) ==> MessageAt(rec, rc, "profilePhoto") == Fail("Profile Photo is required")
    ensures Get(rec, "profilePhoto").Str? && Get(rec, "profilePhoto").s != "" ==> MessageAt(rec, rc, "profilePhoto") == Pass
    ensures !IsMissing(Get(rec, "profilePhoto")) && !HasKind(Get(rec, "profilePhoto"), StringKind) ==>
      MessageAt(rec, rc, "profilePhoto") == Fail(TypeMessage("profilePhoto", StringKind))
  {
    OwnMessage(rec, rc, 14, ProfilePhotoField);
    RequiredTextOutcome("Profile Photo is required", "profilePhoto", Get(rec, "profilePhoto"), rc);
  }

  /** `skills`: a missing or empty list is "At least one skill is required";
      a non-empty list passes its own key. */
  lemma SkillsRules(rec: Record, rc: Recognisers)
    ensures IsMissing(Get(rec, "skills")) ==> MessageAt(rec, rc, "skills") == Fail("At least one skill is required")
    ensures Get(rec, "skills").List? && Get(rec, "skills").items != [] ==> MessageAt(rec, rc, "skills") == Pass
    ensures !IsMissing(Get(rec, "skills")) && !HasKind(Get(rec, "skills"), ArrayKind) ==>
      MessageAt(rec, rc, "skills") == Fail(TypeMessage("skills", ArrayKind))
  {
    OwnMessage(rec, rc, 17, SkillsField);
    SkillsChainOutcome(Get(rec, "skills"), rc);
  }

  /** `education`, `address`, `emergencyNumber` and `coverPhoto` never fail
      for an absent or string value; another shape fails only the type check. */
  lemma OptionalTextNeverFails(rec: Record, rc: Recognisers, name: string)
    requires name in {"education", "address", "emergencyNumber", "coverPhoto"}
    ensures Get(rec, name).Absent? || Get(rec, name).Str? ==> MessageAt(rec, rc, name) == Pass
    ensures !HasKind(Get(rec, name), StringKind) ==> MessageAt(rec, rc, name) == Fail(TypeMessage(name, StringKind))
    ensures forall k :: Under(k, name) && k != name ==> MessageAt(rec, rc, k) == Pass
  {
    if name == "education" { OptionalTextField(rec, rc, 2, EducationField); }
    else if name == "address" { OptionalTextField(rec, rc, 10, AddressField); }
    else if name == "emergencyNumber" { OptionalTextField(rec, rc, 13, EmergencyNumberField); }
    else { OptionalTextField(rec, rc, 15, CoverPhotoField); }
  }

  lemma OptionalTextField(rec: Record, rc: Recognisers, i: nat, f: Field)
    requires i < |FormSchema| && FormSchema[i] == f && f.spec == Plain(OptionalTextChain)
    ensures MessageAt(rec, rc, f.name)
         == if HasKind(Get(rec, f.name), StringKind) then Pass else Fail(TypeMessage(f.name, StringKind))
    ensures forall k :: Under(k, f.name) && k != f.name ==> MessageAt(rec, rc, k) == Pass
  {
    OwnMessage(rec, rc, i, f);
    OptionalTextOutcome(f.name, Get(rec, f.name), rc);
    OnlyOwnKey(rec, rc, i, f);
  }

  /** A field with no errors at all shows nothing at or beneath its name. */
  lemma QuietField(rec: Record, rc: Recognisers, i: nat, f: Field)
    requires i < |FormSchema| && FormSchema[i] == f && FieldErrors(f, rec, rc) == map[]
    ensures forall k :: Under(k, f.name) ==> MessageAt(rec, rc, k) == Pass
  {
    forall k | Under(k, f.name) ensures MessageAt(rec, rc, k) == Pass {
      MessageOfField(rec, rc, i, f, k);
    }
  }

  /** `degreeType` reports nothing at all for an absent value or a list of
      strings. */
  lemma DegreeTypeNeverFails(rec: Record, rc: Recognisers)
    requires Get(rec, "degreeType") == Absent
          || (Get(rec, "degreeType").List? && forall j :: 0 <= j < |Get(rec, "degreeType").items| ==> Get(rec, "degreeType").items[j].Str?)
    ensures forall k :: Under(k, "degreeType") ==> MessageAt(rec, rc, k) == Pass
  {
    var v := Get(rec, "degreeType");
    assert RunChain(ListChain, "degreeType", v, rc) == Pass;
    if v.List? {
      forall j | 0 <= j < |v.items| ensures ItemErrors(IndexPath("degreeType", j), StringItem, v.items[j], rc) == map[] {
        assert RunChain([TypeOf(StringKind)], IndexPath("degreeType", j), v.items[j], rc) == Pass;
      }
      ItemsAllPass("degreeType", StringItem, v.items, rc);
    }
    QuietField(rec, rc, 9, DegreeTypeField);
  }

  /** Each element of `degreeType` and `skills` is type-checked on its own,
      under its index key. */
  lemma StringListElement(rec: Record, rc: Recognisers, name: string, j: nat)
    requires name == "degreeType" || name == "skills"
    requires Get(rec, name).List? && j < |Get(rec, name).items|
    ensures MessageAt(rec, rc, IndexPath(name, j))
         == if HasKind(Get(rec, name).items[j], StringKind) then Pass
            else Fail(TypeMessage(IndexPath(name, j), StringKind))
  {
    var pick: (nat, Field) := if name == "degreeType" then (9, DegreeTypeField) else (17, SkillsField);
    var i, f := pick.0, pick.1;
    var k := IndexPath(name, j);
    ChildUnder(name, NatToString(j));
    MessageOfField(rec, rc, i, f, k);
    ArrayItemKey(f, rec, rc, j, k);
  }

  /** `mobileNumber`: empty is "required"; a non-empty string passes exactly
      when it is ten decimal digits and otherwise is "Invalid mobile number". */
  lemma MobileNumberRules(rec: Record, rc: Recognisers)
    ensures IsMissing(Get(rec, "mobileNumber")) ==> MessageAt(rec, rc, "mobileNumber") == Fail("Mobile number is required")
    ensures Get(rec, "mobileNumber").Str? && Get(rec, "mobileNumber").s != "" ==>
      MessageAt(rec, rc, "mobileNumber")
        == if DecimalDigits(Get(rec, "mobileNumber").s, 10) then Pass else Fail("Invalid mobile number")
  {
    OwnMessage(rec, rc, 11, MobileNumberField);
    MobileNumberChainOutcome(Get(rec, "mobileNumber"), rc);
  }

  /** `pinCode`: absent is not checked; a supplied string passes exactly when it
      is six decimal digits (the empty string included among the failures). */
  lemma PinCodeRules(rec: Record, rc: Recognisers)
    ensures Get(rec, "pinCode") == Absent ==> MessageAt(rec, rc, "pinCode") == Pass
    ensures Get(rec, "pinCode").Str? ==>
      MessageAt(rec, rc, "pinCode")
        == if DecimalDigits(Get(rec, "pinCode").s, 6) then Pass else Fail("Invalid pin code")
  {
    OwnMessage(rec, rc, 12, PinCodeField);
    PinCodeChainOutcome(Get(rec, "pinCode"), rc);
  }

  /** `email`: empty is "required"; a non-empty string passes exactly when the
      recogniser accepts it. */
  lemma EmailRules(rec: Record, rc: Recognisers)
    ensures IsMissing(Get(rec, "email")) ==> MessageAt(rec, rc, "email") == Fail("Email is required")
    ensures Get(rec, "email").Str? && Get(rec, "email").s != "" ==>
      MessageAt(rec, rc, "email") == if rc.isEmail(Get(rec, "email").s) then Pass else Fail("Invalid email")
  {
    OwnMessage(rec, rc, 4, EmailField);
    EmailChainOutcome(Get(rec, "email"), rc);
  }

  /** `experience`: absent is "required"; a number passes exactly when it lies
      in [0, 10], both bounds included, and otherwise names the bound it broke. */
  lemma ExperienceRules(rec: Record, rc: Recognisers)
    ensures Get(rec, "experience") == Absent ==> MessageAt(rec, rc, "experience") == Fail("Years of experience is required")
    ensures Get(rec, "experience").Num? ==>
      (MessageAt(rec, rc, "experience") == Pass <==> 0 <= Get(rec, "experience").n <= 10)
    ensures Get(rec, "experience").Num? && Get(rec, "experience").n < 0 ==>
      MessageAt(rec, rc, "experience") == Fail("experience must be greater than or equal to 0")
    ensures Get(rec, "experience").Num? && Get(rec, "experience").n > 10 ==>
      MessageAt(rec, rc, "experience") == Fail("experience must be less than or equal to 10")
  {
    OwnMessage(rec, rc, 16, ExperienceField);
    ExperienceChainOutcome(Get(rec, "experience"), rc);
  }

  /** `aboutMe`: empty is "required"; a non-empty string passes exactly when
      its JavaScript `.length` (UTF-16 code units) is at most 250. */
  lemma AboutMeRules(rec: Record, rc: Recognisers)
    ensures IsMissing(Get(rec, "aboutMe")) ==> MessageAt(rec, rc, "aboutMe") == Fail("Description is required")
    ensures Get(rec, "aboutMe").Str? && Get(rec, "aboutMe").s != "" ==>
      MessageAt(rec, rc, "aboutMe")
        == if Utf16Length(Get(rec, "aboutMe").s) <= 250 then Pass else Fail("Description should be at most 250 characters")
  {
    OwnMessage(rec, rc, 18, AboutMeField);
    AboutMeChainOutcome(Get(rec, "aboutMe"), rc);
  }

  /** The bound is on code units, not characters: 126 characters beyond
      U+FFFF (emoji, say) are 252 code units and are refused. */
  lemma AboutMeCountsCodeUnits(rec: Record, rc: Recognisers)
    requires Get(rec, "aboutMe").Str? && |Get(rec, "aboutMe").s| > 125
    requires forall i :: 0 <= i < |Get(rec, "aboutMe").s| ==> Get(rec, "aboutMe").s[i] as int > 0xFFFF
    ensures MessageAt(rec, rc, "aboutMe") == Fail("Description should be at most 250 characters")
  {
    AboutMeRules(rec, rc);
  }

  /** `agreeTerms`: `false` is refused, `true` accepted; an absent value is let
      through, as `oneOf` does for a missing value. */
  lemma AgreeTermsRules(rec: Record, rc: Recognisers)
    ensures Get(rec, "agreeTerms") == Bool(false) ==>
      MessageAt(rec, rc, "agreeTerms") == Fail("You must agree to the terms and conditions")
    ensures Get(rec, "agreeTerms") == Bool(true) || Get(rec, "agreeTerms") == Absent ==>
      MessageAt(rec, rc, "agreeTerms") == Pass
    ensures !HasKind(Get(rec, "agreeTerms"), BooleanKind) ==>
      MessageAt(rec, rc, "agreeTerms") == Fail(TypeMessage("agreeTerms", BooleanKind))
  {
    OwnMessage(rec, rc, 19, AgreeTermsField);
    AgreeTermsChainOutcome(Get(rec, "agreeTerms"), rc);
  }

  /** `cvType == "online"` switches on the website-link rules and leaves the
      file unchecked whatever it holds. */
  lemma OnlineSelectsWebsiteLinkRules(rec: Record, rc: Recognisers)
    requires Get(rec, "cvType") == Str("online")
    ensures IsMissing(Get(rec, "websiteLink")) ==> MessageAt(rec, rc, "websiteLink") == Fail("Website Link is required")
    ensures Get(rec, "websiteLink").Str? && Get(rec, "websiteLink").s != "" ==>
      MessageAt(rec, rc, "websiteLink")
        == if rc.isUrl(Get(rec, "websiteLink").s) then Pass else Fail("Invalid website link")
    ensures MessageAt(rec, rc, "file") == Pass
  {
    OwnMessage(rec, rc, 7, WebsiteLinkField);
    assert ChainFor(WebsiteLinkField, rec) == WebsiteLinkOnline;
    WebsiteLinkOnlineOutcome(Get(rec, "websiteLink"), rc);
    OtherModesPassFileThrough(rec, rc);
  }

  /** Any other `cvType` (another string, a number, nothing) passes the website
      link through: only its `string()` type check remains. */
  lemma OtherModesPassWebsiteLinkThrough(rec: Record, rc: Recognisers)
    requires Get(rec, "cvType") != Str("online")
    ensures MessageAt(rec, rc, "websiteLink")
         == if HasKind(Get(rec, "websiteLink"), StringKind) then Pass else Fail(TypeMessage("websiteLink", StringKind))
  {
    OwnMessage(rec, rc, 7, WebsiteLinkField);
    assert ChainFor(WebsiteLinkField, rec) == WebsiteLinkBase;
    WebsiteLinkBaseOutcome(Get(rec, "websiteLink"), rc);
  }

  /** `cvType == "offline"` switches on the file rules: a missing file is
      "required", a PDF or Word file passes, anything else is
      "Invalid file format". */
  lemma OfflineSelectsFileRules(rec: Record, rc: Recognisers)
    requires Get(rec, "cvType") == Str("offline")
    ensures IsMissing(Get(rec, "file")) ==> MessageAt(rec, rc, "file") == Fail("File is required")
    ensures Get(rec, "file").FileRef? ==>
      MessageAt(rec, rc, "file")
        == if Get(rec, "file").mime == "application/pdf" || Get(rec, "file").mime == "application/msword"
           then Pass else Fail("Invalid file format")
    ensures !IsMissing(Get(rec, "file")) && !Get(rec, "file").FileRef? ==>
      MessageAt(rec, rc, "file") == Fail("Invalid file format")
  {
    OwnMessage(rec, rc, 8, FileField);
    assert ChainFor(FileField, rec) == FileOffline;
    FileOfflineOutcome(Get(rec, "file"), rc);
  }

  /** Any other `cvType` leaves the file unchecked. */
  lemma OtherModesPassFileThrough(rec: Record, rc: Recognisers)
    requires Get(rec, "cvType") != Str("offline")
    ensures MessageAt(rec, rc, "file") == Pass
  {
    OwnMessage(rec, rc, 8, FileField);
  }

  /** The `projects` list itself: an empty list is "At least one project is
      required", a non-empty list passes, and another shape fails the array
      type check. */
  lemma ProjectsListRules(rec: Record, rc: Recognisers)
    ensures Get(rec, "projects").List? ==>
      MessageAt(rec, rc, "projects")
        == if |Get(rec, "projects").items| == 0 then Fail("At least one project is required") else Pass
    ensures !HasKind(Get(rec, "projects"), ArrayKind) ==>
      MessageAt(rec, rc, "projects") == Fail(TypeMessage("projects", ArrayKind))
  {
    OwnMessage(rec, rc, 5, ProjectsField);
    ProjectsChainOutcome(Get(rec, "projects"), rc);
  }

  /** An absent `projects` is not checked at all: nothing is reported at or
      beneath its key. */
  lemma AbsentProjectsUnchecked(rec: Record, rc: Recognisers)
    requires Get(rec, "projects") == Absent
    ensures forall k :: Under(k, "projects") ==> MessageAt(rec, rc, k) == Pass
  {
    ProjectsChainOutcome(Absent, rc);
    SilentField(rec, rc, 5, ProjectsField);
  }

  /** An empty `projects` list reports only the aggregate message: there is no
      per-index message. */
  lemma EmptyProjectsOnlyAggregate(rec: Record, rc: Recognisers)
    requires Get(rec, "projects") == List([])
    ensures MessageAt(rec, rc, "projects") == Fail("At least one project is required")
    ensures forall k :: Under(k, "projects") && k != "projects" ==> MessageAt(rec, rc, k) == Pass
  {
    OwnMessage(rec, rc, 5, ProjectsField);
    ProjectsChainOutcome(List([]), rc);
    OnlyOwnKey(rec, rc, 5, ProjectsField);
  }

  /** The message at `projects.i.<name>` for entry `j` of the item schema is
      that entry's chain run on the element's field (an absent element counts
      as an empty object). */
  lemma ProjectEntryMessage(rec: Record, rc: Recognisers, i: nat, j: nat)
    requires Get(rec, "projects").List? && i < |Get(rec, "projects").items|
    requires Get(rec, "projects").items[i].Absent? || Get(rec, "projects").items[i].Object?
    requires j < |ProjectItem.entries|
    ensures var x := Get(rec, "projects").items[i];
      var fs := if x.Object? then x.fields else map[];
      var e := ProjectItem.entries[j];
      MessageAt(rec, rc, ProjectKey(i, e.name)) == RunChain(e.chain, ProjectKey(i, e.name), Get(fs, e.name), rc)
  {
    var x := Get(rec, "projects").items[i];
    var fs := if x.Object? then x.fields else map[];
    var p := IndexPath("projects", i);
    var entries := ProjectItem.entries;
    assert DistinctEntries(entries);
    var k := ProjectKey(i, entries[j].name);
    ChildUnder(p, entries[j].name);
    UnderChildUnderParent(k, "projects", NatToString(i));
    MessageOfField(rec, rc, 5, ProjectsField, k);
    ArrayItemKey(ProjectsField, rec, rc, i, k);
    EntriesLookup(p, entries, fs, rc, entries[j]);
  }

  /** An object (or absent) project element reports at most its two entry keys. */
  lemma ProjectElementKeys(p: string, x: Value, rc: Recognisers)
    requires x.Absent? || x.Object?
    ensures forall k :: k in ItemErrors(p, ProjectItem, x, rc) ==>
              k == Child(p, "projectName") || k == Child(p, "projectDescription")
  {
    var entries := ProjectItem.entries;
    var r := EntriesErrors(p, entries, if x.Object? then x.fields else map[], rc);
    assert ItemErrors(p, ProjectItem, x, rc) == r;
    forall k | k in r ensures k == Child(p, "projectName") || k == Child(p, "projectDescription") {
      var j :| 0 <= j < |entries| && k == Child(p, entries[j].name);
    }
  }

  /** An object (or absent) element of `projects` reports only at its two
      entry keys: nothing at `projects.i` itself or anywhere else beneath it. */
  lemma ProjectItemQuietElsewhere(rec: Record, rc: Recognisers, i: nat)
    requires Get(rec, "projects").List? && i < |Get(rec, "projects").items|
    requires Get(rec, "projects").items[i].Absent? || Get(rec, "projects").items[i].Object?
    ensures forall k :: Under(k, IndexPath("projects", i))
                && k != ProjectKey(i, "projectName") && k != ProjectKey(i, "projectDescription")
                ==> MessageAt(rec, rc, k) == Pass
  {
    var x := Get(rec, "projects").items[i];
    var fs := if x.Object? then x.fields else map[];
    var p := IndexPath("projects", i);
    var r := ItemErrors(p, ProjectItem, x, rc);
    ProjectElementKeys(p, x, rc);
    forall k | Under(k, p) && k != ProjectKey(i, "projectName") && k != ProjectKey(i, "projectDescription")
      ensures MessageAt(rec, rc, k) == Pass
    {
      UnderChildUnderParent(k, "projects", NatToString(i));
      MessageOfField(rec, rc, 5, ProjectsField, k);
      ArrayItemKey(ProjectsField, rec, rc, i, k);
      assert k !in r;
    }
  }

  /** Project `i`'s own messages: at `projects.i.projectName` and
      `projects.i.projectDescription`, "required" when the value is absent or
      empty and nothing for a non-empty string. */
  lemma ProjectItemRules(rec: Record, rc: Recognisers, i: nat)
    requires Get(rec, "projects").List? && i < |Get(rec, "projects").items|
    requires Get(rec, "projects").items[i].Absent? || Get(rec, "projects").items[i].Object?
    ensures var x := Get(rec, "projects").items[i];
      var fs := if x.Object? then x.fields else map[];
      && (IsMissing(Get(fs, "projectName")) ==>
            MessageAt(rec, rc, ProjectKey(i, "projectName")) == Fail("Project Name is required"))
      && (Get(fs, "projectName").Str? && Get(fs, "projectName").s != "" ==>
            MessageAt(rec, rc, ProjectKey(i, "projectName")) == Pass)
      && (IsMissing(Get(fs, "projectDescription")) ==>
            MessageAt(rec, rc, ProjectKey(i, "projectDescription")) == Fail("Project Description is required"))
      && (Get(fs, "projectDescription").Str? && Get(fs, "projectDescription").s != "" ==>
            MessageAt(rec, rc, ProjectKey(i, "projectDescription")) == Pass)
    ensures forall k :: Under(k, IndexPath("projects", i))
                && k != ProjectKey(i, "projectName") && k != ProjectKey(i, "projectDescription")
                ==> MessageAt(rec, rc, k) == Pass
  {
    var x := Get(rec, "projects").items[i];
    var fs := if x.Object? then x.fields else map[];
    ProjectItemQuietElsewhere(rec, rc, i);
    ProjectEntryMessage(rec, rc, i, 0);
    ProjectEntryMessage(rec, rc, i, 1);
    RequiredTextOutcome("Project Name is required", ProjectKey(i, "projectName"), Get(fs, "projectName"), rc);
    RequiredTextOutcome("Project Description is required", ProjectKey(i, "projectDescription"), Get(fs, "projectDescription"), rc);
  }

  /** An element of `projects` that is not an object fails the object type
      check at its index key `projects.i`. */
  lemma ProjectNotObject(rec: Record, rc: Recognisers, i: nat)
    requires Get(rec, "projects").List? && i < |Get(rec, "projects").items|
    requires !(Get(rec, "projects").items[i].Absent? || Get(rec, "projects").items[i].Object?)
    ensures MessageAt(rec, rc, IndexPath("projects", i)) == Fail(TypeMessage(IndexPath("projects", i), ObjectKind))
  {
    var p := IndexPath("projects", i);
    ChildUnder("projects", NatToString(i));
    MessageOfField(rec, rc, 5, ProjectsField, p);
    ArrayItemKey(ProjectsField, rec, rc, i, p);
  }

  /** Project messages are local: what is shown beneath `projects.i` depends
      on element `i` alone, so the other elements cannot change it. */
  lemma ProjectMessagesAreLocal(r1: Record, r2: Record, rc: Recognisers, i: nat, k: string)
    requires Get(r1, "projects").List? && Get(r2, "projects").List?
    requires i < |Get(r1, "projects").items| && i < |Get(r2, "projects").items|
    requires Get(r1, "projects").items[i] == Get(r2, "projects").items[i]
    requires Under(k, IndexPath("projects", i))
    ensures MessageAt(r1, rc, k) == MessageAt(r2, rc, k)
  {
    UnderChildUnderParent(k, "projects", NatToString(i));
    MessageOfField(r1, rc, 5, ProjectsField, k);
    MessageOfField(r2, rc, 5, ProjectsField, k);
    ArrayItemKey(ProjectsField, r1, rc, i, k);
    ArrayItemKey(ProjectsField, r2, rc, i, k);
  }
}
