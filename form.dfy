/** The registration form's schema: twenty fields, one conditional
    discriminator (`cvType`) and one array of project objects. */
module Form {
  import opened Values
  import opened Rules
  import opened Paths
  import opened Engine

  /** The two values of `cvType` that switch on a dependent field's rules. */
  const OnlineMode: string := "online"
  const OfflineMode: string := "offline"

  /** MIME types the CV upload accepts. */
  const AcceptedCvTypes: seq<string> := ["application/pdf", "application/msword"]

  /** Longest accepted `aboutMe` text. */
  const MaxDescription: nat := 250

  // The rule chain of each field, in the order its rules are checked. A
  // `required` rule always comes first, so an absent or empty value reports
  // that message and nothing else.

  const FirstNameChain: seq<Rule> := [Required("First Name is required"), TypeOf(StringKind)]
  const LastNameChain: seq<Rule> := [Required("Last Name is required"), TypeOf(StringKind)]
  const DobChain: seq<Rule> := [Required("DOB is required"), TypeOf(StringKind)]
  const EmailChain: seq<Rule> := [Required("Email is required"), TypeOf(StringKind), Email("Invalid email")]
  const CvTypeChain: seq<Rule> := [Required("CV Type is required"), TypeOf(StringKind)]
  const ProfilePhotoChain: seq<Rule> := [Required("Profile Photo is required"), TypeOf(StringKind)]
  /** `education`, `address`, `emergencyNumber`, `coverPhoto`: bare `string()`. */
  const OptionalTextChain: seq<Rule> := [TypeOf(StringKind)]

  const ProjectsChain: seq<Rule> := [TypeOf(ArrayKind), MinItems(1, "At least one project is required")]
  const ProjectNameChain: seq<Rule> := [Required("Project Name is required"), TypeOf(StringKind)]
  const ProjectDescriptionChain: seq<Rule> := [Required("Project Description is required"), TypeOf(StringKind)]
  const ProjectItem: ItemSpec := EachObject([
    Entry("projectName", ProjectNameChain),
    Entry("projectDescription", ProjectDescriptionChain)
  ])

  /** `websiteLink` outside online mode keeps only its `string()` type. */
  const WebsiteLinkBase: seq<Rule> := [TypeOf(StringKind)]
  const WebsiteLinkOnline: seq<Rule> :=
    [Required("Website Link is required"), TypeOf(StringKind), Url("Invalid website link")]
  /** `file` is `mixed()`: outside offline mode nothing is checked. */
  const FileBase: seq<Rule> := []
  const FileOffline: seq<Rule> := [Required("File is required"), MimeIn(AcceptedCvTypes, "Invalid file format")]

  const ListChain: seq<Rule> := [TypeOf(ArrayKind)]
  const StringItem: ItemSpec := EachValue([TypeOf(StringKind)])
  const SkillsChain: seq<Rule> := [Required("At least one skill is required"), TypeOf(ArrayKind)]

  const MobileNumberChain: seq<Rule> :=
    [Required("Mobile number is required"), TypeOf(StringKind), DigitRun(10, "Invalid mobile number")]
  const PinCodeChain: seq<Rule> := [TypeOf(StringKind), DigitRun(6, "Invalid pin code")]
  /** The `min`/`max` messages are yup's default texts for this path. */
  const ExperienceChain: seq<Rule> := [
    Required("Years of experience is required"), TypeOf(NumberKind),
    Min(0, "experience must be greater than or equal to 0"),
    Max(10, "experience must be less than or equal to 10")
  ]
  const AboutMeChain: seq<Rule> := [
    Required("Description is required"), TypeOf(StringKind),
    MaxLength(MaxDescription, "Description should be at most 250 characters")
  ]
  const AgreeTermsChain: seq<Rule> := [TypeOf(BooleanKind), OneOfTrue("You must agree to the terms and conditions")]

  const FirstNameField := Field("firstName", Plain(FirstNameChain))
  const LastNameField := Field("lastName", Plain(LastNameChain))
  const EducationField := Field("education", Plain(OptionalTextChain))
  const DobField := Field("dob", Plain(DobChain))
  const EmailField := Field("email", Plain(EmailChain))
  const ProjectsField := Field("projects", ArrayOf(ProjectsChain, ProjectItem))
  const CvTypeField := Field("cvType", Plain(CvTypeChain))
  /** Resolved against the sibling `cvType` on every call. */
  const WebsiteLinkField := Field("websiteLink", When(WebsiteLinkBase, "cvType", OnlineMode, WebsiteLinkOnline))
  const FileField := Field("file", When(FileBase, "cvType", OfflineMode, FileOffline))
  const DegreeTypeField := Field("degreeType", ArrayOf(ListChain, StringItem))
  const AddressField := Field("address", Plain(OptionalTextChain))
  const MobileNumberField := Field("mobileNumber", Plain(MobileNumberChain))
  const PinCodeField := Field("pinCode", Plain(PinCodeChain))
  const EmergencyNumberField := Field("emergencyNumber", Plain(OptionalTextChain))
  const ProfilePhotoField := Field("profilePhoto", Plain(ProfilePhotoChain))
  const CoverPhotoField := Field("coverPhoto", Plain(OptionalTextChain))
  const ExperienceField := Field("experience", Plain(ExperienceChain))
  const SkillsField := Field("skills", ArrayOf(SkillsChain, StringItem))
  const AboutMeField := Field("aboutMe", Plain(AboutMeChain))
  const AgreeTermsField := Field("agreeTerms", Plain(AgreeTermsChain))

  /** The schema, in declared order. */
  const FormSchema: seq<Field> := [
    FirstNameField, LastNameField, EducationField, DobField, EmailField,
    ProjectsField, CvTypeField, WebsiteLinkField, FileField, DegreeTypeField,
    AddressField, MobileNumberField, PinCodeField, EmergencyNumberField, ProfilePhotoField,
    CoverPhotoField, ExperienceField, SkillsField, AboutMeField, AgreeTermsField
  ]

  /** Validates a whole record: error key to its one message. */
  function Validate(rec: Record, rc: Recognisers): (r: Errors)
    ensures forall k :: k in r ==> exists i :: 0 <= i < |FormDataKeys| && Under(k, FormDataKeys[i])
  {
    SchemaMatchesFormData();
    ValidateFields(FormSchema, rec, rc)
  }

  /** `ok` of the validation result: no message at all, which is to say
      that every field passes. */
  predicate IsValid(rec: Record, rc: Recognisers)
    ensures IsValid(rec, rc) <==> forall i :: 0 <= i < |FormSchema| ==> FieldErrors(FormSchema[i], rec, rc) == map[]
  {
    ValidIffEveryFieldPasses(FormSchema, rec, rc);
    Validate(rec, rc) == map[]
  }

  /** What the form shows under `key` (`errors.<key>?.message`); a key
      outside the `FormData` fields never shows anything. */
  function MessageAt(rec: Record, rc: Recognisers, key: string): (r: Outcome)
    ensures r.Fail? ==> exists i :: 0 <= i < |FormDataKeys| && Under(key, FormDataKeys[i])
  {
    Lookup(Validate(rec, rc), key)
  }

  /** Key of the field `name` of project `i`: `projects.i.name`. */
  function ProjectKey(i: nat, name: string): string
  {
    Child(IndexPath("projects", i), name)
  }

  /** The keys of the `FormData` record, in declared order. */
  const FormDataKeys: seq<string> := [
    "firstName", "lastName", "education", "dob", "email", "projects", "cvType",
    "websiteLink", "file", "degreeType", "address", "mobileNumber", "pinCode",
    "emergencyNumber", "profilePhoto", "coverPhoto", "experience", "skills",
    "aboutMe", "agreeTerms"
  ]

  /** The schema validates exactly the keys of `FormData`, one field each,
      in the same order. */
  lemma SchemaMatchesFormData()
    ensures |FormSchema| == |FormDataKeys|
    ensures forall i :: 0 <= i < |FormSchema| ==> FormSchema[i].name == FormDataKeys[i]
  {
  }

  lemma FormDataKeysDotFree()
    ensures forall i :: 0 <= i < |FormDataKeys| ==> DotFree(FormDataKeys[i])
  {
  }

  lemma SchemaNamesDotFree()
    ensures forall i :: 0 <= i < |FormSchema| ==> DotFree(FormSchema[i].name)
  {
    SchemaMatchesFormData();
    FormDataKeysDotFree();
  }

  lemma SchemaNamesDistinct()
    ensures forall i, j :: 0 <= i < j < |FormSchema| ==> FormSchema[i].name != FormSchema[j].name
  {
  }

  lemma SchemaWellFormed()
    ensures WellFormed(FormSchema)
  {
    SchemaNamesDotFree();
    SchemaNamesDistinct();
  }

  /** A key beneath the name of field `f` (declared at position `i`) shows
      what `f` reports there. */
  lemma MessageOfField(rec: Record, rc: Recognisers, i: nat, f: Field, k: string)
    requires i < |FormSchema| && FormSchema[i] == f && Under(k, f.name)
    ensures MessageAt(rec, rc, k) == Lookup(FieldErrors(f, rec, rc), k)
  {
    SchemaWellFormed();
    FieldLookup(FormSchema, rec, rc, i, k);
  }

  /** The field's own key shows the outcome of its chain for this record. */
  lemma OwnMessage(rec: Record, rc: Recognisers, i: nat, f: Field)
    requires i < |FormSchema| && FormSchema[i] == f
    ensures MessageAt(rec, rc, f.name) == RunChain(ChainFor(f, rec), f.name, Get(rec, f.name), rc)
  {
    MessageOfField(rec, rc, i, f, f.name);
    FieldOwnKey(f, rec, rc);
  }

  /** `ok` holds exactly when no key shows a message. */
  lemma ValidIffNoMessage(rec: Record, rc: Recognisers)
    ensures IsValid(rec, rc) <==> forall k :: MessageAt(rec, rc, k) == Pass
  {
    if !IsValid(rec, rc) {
      var k :| k in Validate(rec, rc);
      assert MessageAt(rec, rc, k).Fail?;
    }
  }

  /** Validation looks only at the `FormData` keys: extra keys in the record,
      and their values, change nothing. */
  lemma ValidateReadsOnlyFormData(r1: Record, r2: Record, rc: Recognisers)
    requires forall key :: key in FormDataKeys ==> Get(r1, key) == Get(r2, key)
    ensures Validate(r1, rc) == Validate(r2, rc)
  {
    SchemaMatchesFormData();
    forall i, key | 0 <= i < |FormSchema| && key in FieldReads(FormSchema[i])
      ensures Get(r1, key) == Get(r2, key)
    {
      assert FormSchema[i].name == FormDataKeys[i];
      if FormSchema[i].spec.When? {
        assert FormSchema[i].spec.discriminator == "cvType" == FormDataKeys[6];
      }
    }
    ValidateDependsOnlyOnReads(FormSchema, r1, r2, rc);
  }
}
