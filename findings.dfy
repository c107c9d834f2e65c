/** The conditional rules of `websiteLink` and `file` as the schema writes
    them. yup calls a transform as `fn(currentValue, originalValue, schema)`,
    so the parameter the schema names `originalObject` is the field's own
    raw value, not the record: `originalObject.cvType` reads a property of a
    string or a file, which is `undefined`, and the `=== "online"` /
    `=== "offline"` test never holds. The rest of the model uses the
    intended reading, in which the test looks at the sibling `cvType`
    (`Engine.Resolve`). */
module TransformFinding {
  import opened Values
  import opened Rules
  import opened Engine
  import opened Form
  import opened FormProperties

  /** What `originalObject.<key>` evaluates to when `originalObject` is the
      field's own value, for a key such as `cvType` that is not a built-in
      property of strings, arrays or files: a property of an object,
      `undefined` otherwise. */
  function TransformSees(original: Value, key: string): (r: Value)
    ensures !original.Object? ==> r == Absent
    ensures original.Object? && key in original.fields ==> r == original.fields[key]
  {
    if original.Object? then Get(original.fields, key) else Absent
  }

  /** The chain in force for a conditional field as written. yup does not
      run transforms on an absent value, and otherwise the test reads the
      field's own value. When that value is an object whose `cvType` equals
      the literal, the source's transform returns the Promise of
      `.validate(...)`; the active chain stands in for it here, the
      intended synchronous check. */
  function AsWrittenChain(f: Field, rec: Record): seq<Rule>
    requires f.spec.When?
  {
    var v := Get(rec, f.name);
    if v != Absent && TransformSees(v, f.spec.discriminator) == Str(f.spec.equals)
    then f.spec.active else f.spec.base
  }

  /** The errors of a conditional field as written. */
  function AsWrittenFieldErrors(f: Field, rec: Record, rc: Recognisers): (r: Errors)
    requires f.spec.When?
    ensures forall k :: k in r ==> k == f.name
  {
    Report(f.name, RunChain(AsWrittenChain(f, rec), f.name, Get(rec, f.name), rc))
  }

  /** For every value the form can hold in these fields (nothing, a string,
      a file) the written test is false whatever `cvType` is, so only the
      base chain ever applies. */
  lemma AsWrittenNeverActivates(f: Field, rec: Record)
    requires f.spec.When?
    requires !Get(rec, f.name).Object?
    ensures AsWrittenChain(f, rec) == f.spec.base
  {
    assert TransformSees(Get(rec, f.name), f.spec.discriminator) == Absent;
  }

  /** Online mode with an empty website link, in any record: as written
      nothing is reported, while the intended rules report "Website Link is
      required". */
  lemma OnlineEmptyLinkAsWritten(rec: Record, rc: Recognisers)
    requires Get(rec, "cvType") == Str("online") && Get(rec, "websiteLink") == Str("")
    ensures AsWrittenFieldErrors(WebsiteLinkField, rec, rc) == map[]
    ensures MessageAt(rec, rc, "websiteLink") == Fail("Website Link is required")
  {
    AsWrittenNeverActivates(WebsiteLinkField, rec);
    WebsiteLinkBaseOutcome(Str(""), rc);
    OnlineSelectsWebsiteLinkRules(rec, rc);
  }

  /** Offline mode with a PNG image, in any record: as written nothing is
      reported, while the intended rules report "Invalid file format". */
  lemma OfflinePngAsWritten(rec: Record, rc: Recognisers)
    requires Get(rec, "cvType") == Str("offline") && Get(rec, "file") == FileRef("image/png")
    ensures AsWrittenFieldErrors(FileField, rec, rc) == map[]
    ensures MessageAt(rec, rc, "file") == Fail("Invalid file format")
  {
    AsWrittenNeverActivates(FileField, rec);
    OfflineSelectsFileRules(rec, rc);
  }

  /** The smallest record that shows the online case. */
  lemma OnlineEmptyLinkCounterexample(rc: Recognisers)
    ensures var rec := map["cvType" := Str("online"), "websiteLink" := Str("")];
      && AsWrittenFieldErrors(WebsiteLinkField, rec, rc) == map[]
      && MessageAt(rec, rc, "websiteLink") == Fail("Website Link is required")
  {
    var rec := map["cvType" := Str("online"), "websiteLink" := Str("")];
    assert Get(rec, "cvType") == Str("online") && Get(rec, "websiteLink") == Str("");
    OnlineEmptyLinkAsWritten(rec, rc);
  }

  /** The smallest record that shows the offline case. */
  lemma OfflinePngCounterexample(rc: Recognisers)
    ensures var rec := map["cvType" := Str("offline"), "file" := FileRef("image/png")];
      && AsWrittenFieldErrors(FileField, rec, rc) == map[]
      && MessageAt(rec, rc, "file") == Fail("Invalid file format")
  {
    var rec := map["cvType" := Str("offline"), "file" := FileRef("image/png")];
    assert Get(rec, "cvType") == Str("offline") && Get(rec, "file") == FileRef("image/png");
    OfflinePngAsWritten(rec, rc);
  }
}
