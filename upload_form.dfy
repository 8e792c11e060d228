/** The state of the `DocumentsComponent` page and its event handlers. Each
    handler is a method that updates the state maps in place, one slot at a
    time; the outcomes of Firebase Storage, the OCR request and the profile
    kept in `localStorage` arrive as parameters. */
module UploadForm {
  import opened Text
  import opened UploadSlots

  /** What `handleFileChange` does besides updating the state: nothing (no
      file in the input), a notice, or the start of an upload to `path`. */
  datatype SelectOutcome = NoFileChosen | AlreadyUploaded(notice: string) | UploadStarted(path: string)

  /** What `handleRemove` does: nothing (the entry has no stored file, so
      reading its name throws), or a delete of `path` that succeeded or
      failed. */
  datatype RemoveOutcome = NothingToRemove | Removed(path: string) | RemoveFailed(path: string)

  class DocumentsComponent {
    var documents: map<Slot, Entry>
    var uploadedDocs: map<Slot, bool>
    var validity: map<Slot, bool>
    var progress: nat
    var submissionStatus: map<Slot, string>
    var isSubmitted: bool

    /** All five slots are present in the three maps, and a slot is marked
        uploaded exactly when its entry carries a URL. */
    ghost predicate Valid()
      reads this
    {
      forall s: Slot :: s in documents && s in uploadedDocs && s in validity
        && (uploadedDocs[s] <==> documents[s].Stored?)
    }

    /** The three maps read at one slot. */
    ghost function SlotOf(slot: Slot): SlotState
      reads this
      requires Valid()
    {
      SlotState(documents[slot], uploadedDocs[slot], validity[slot])
    }

    constructor()
      ensures Valid()
      ensures forall s: Slot :: SlotOf(s) == Initial
      ensures progress == 0 && submissionStatus == map[] && !isSubmitted
    {
      documents := map[GateScorecard := Empty, CasteCertificate := Empty, PwdCertificate := Empty,
                  EwsCertificate := Empty, ExperienceLetter := Empty];
      uploadedDocs := map[GateScorecard := false, CasteCertificate := false, PwdCertificate := false,
                     EwsCertificate := false, ExperienceLetter := false];
      validity := map[GateScorecard := true, CasteCertificate := true, PwdCertificate := true,
                 EwsCertificate := true, ExperienceLetter := true];
      progress := 0;
      submissionStatus := map[];
      isSubmitted := false;
      new;
      forall s: Slot
        ensures s in documents && s in uploadedDocs && s in validity
      {
        match s
        case GateScorecard =>
        case CasteCertificate =>
        case PwdCertificate =>
        case EwsCertificate =>
        case ExperienceLetter =>
      }
    }

    /** `handleFileChange`: a file picked for an empty slot is stored at once
        and its upload started; a pick for a slot that already holds
        something only raises a notice. */
    method HandleFileChange(slot: Slot, file: Option<File>) returns (outcome: SelectOutcome)
      requires Valid()
      modifies this
      ensures Valid()
      ensures file.None? ==> outcome == NoFileChosen && SlotOf(slot) == old(SlotOf(slot))
      ensures file.Some? ==> SlotOf(slot) == Step(old(SlotOf(slot)), FileChosen(file.value))
      ensures file.Some? && old(documents[slot]) == Empty ==>
        outcome == UploadStarted(StoragePath(slot, file.value))
      ensures file.Some? && old(documents[slot]) != Empty ==>
        outcome == AlreadyUploaded(AlreadyUploadedNotice(slot)) && SlotOf(slot) == old(SlotOf(slot))
      ensures forall s :: s != slot ==> SlotOf(s) == old(SlotOf(s))
      ensures progress == old(progress) && submissionStatus == old(submissionStatus)
      ensures isSubmitted == old(isSubmitted)
    {
      if file.None? {
        return NoFileChosen;
      }
      if documents[slot] == Empty {
        documents := documents[slot := Picked(file.value)];
        assert Valid();
        assert SlotOf(slot) == Step(old(SlotOf(slot)), FileChosen(file.value));
        outcome := UploadStarted(StoragePath(slot, file.value));
      } else {
        outcome := AlreadyUploaded(AlreadyUploadedNotice(slot));
      }
    }

    /** The `state_changed` observer: the shared progress bar shows the
        rounded percentage of the running transfer. */
    method OnUploadProgress(percent: nat)
      requires Valid()
      modifies this
      ensures Valid()
      ensures progress == percent
      ensures documents == old(documents) && uploadedDocs == old(uploadedDocs)
      ensures validity == old(validity) && submissionStatus == old(submissionStatus)
      ensures isSubmitted == old(isSubmitted)
    {
      progress := percent;
    }

    /** The error and completion observers of `handleUpload`. On success the
        slot holds the file with its URL and is marked uploaded, the progress
        bar is reset, the status panel is shown, and the text extraction is
        started (the result says whether it was). A failed transfer or a
        failed URL lookup changes nothing. */
    method OnUploadFinished(slot: Slot, file: File, outcome: UploadOutcome) returns (extracting: bool)
      requires Valid()
      modifies this
      ensures Valid()
      ensures extracting <==> outcome.Transferred?
      ensures SlotOf(slot) == Step(old(SlotOf(slot)), UploadFinished(file, outcome))
      ensures extracting ==> SlotOf(slot) == old(SlotOf(slot)).(entry := Stored(file, outcome.url), uploaded := true)
      ensures extracting ==> progress == 0 && isSubmitted
      ensures !extracting ==> SlotOf(slot) == old(SlotOf(slot))
      ensures !extracting ==> progress == old(progress) && isSubmitted == old(isSubmitted)
      ensures forall s :: s != slot ==> SlotOf(s) == old(SlotOf(s))
      ensures submissionStatus == old(submissionStatus)
    {
      if !outcome.Transferred? {
        return false;
      }
      uploadedDocs := uploadedDocs[slot := true];
      documents := documents[slot := Stored(file, outcome.url)];
      progress := 0;
      isSubmitted := true;
      extracting := true;
    }

    /** The validity update of `handleExtractText`: the slot is marked valid
        exactly when the stored dob equals the date extracted from the OCR
        text. The verdict is returned; `None` when the request or the
        profile lookup throws, which changes nothing. */
    method HandleExtractText(slot: Slot, text: Option<string>, profile: StoredProfile)
      returns (verdict: Option<bool>)
      requires Valid()
      modifies this
      ensures Valid()
      ensures verdict.Some? <==> text.Some? && profile.Profile?
      ensures verdict.Some? ==> validity[slot] == verdict.value
      ensures verdict == Some(true) ==> profile.Profile? && profile.dob.Some?
      ensures SlotOf(slot) == Step(old(SlotOf(slot)), TextExtracted(text, profile))
      ensures verdict.None? ==> validity == old(validity)
      ensures documents == old(documents) && uploadedDocs == old(uploadedDocs)
      ensures forall s :: s != slot ==> SlotOf(s) == old(SlotOf(s))
      ensures progress == old(progress) && submissionStatus == old(submissionStatus)
      ensures isSubmitted == old(isSubmitted)
    {
      verdict := Verdict(text, profile);
      if verdict.Some? {
        validity := validity[slot := verdict.value];
      }
    }

    /** `handleRemove`: only a slot holding a stored file can be removed, by
        deleting the object its upload wrote. When the delete succeeds the
        slot is back to its initial state; when it fails nothing changes. */
    method HandleRemove(slot: Slot, deleted: bool) returns (outcome: RemoveOutcome)
      requires Valid()
      modifies this
      ensures Valid()
      ensures !old(documents[slot]).Stored? ==> outcome == NothingToRemove
      ensures old(documents[slot]).Stored? && deleted ==>
        outcome == Removed(StoragePath(slot, old(documents[slot]).file)) && SlotOf(slot) == Initial
      ensures old(documents[slot]).Stored? && !deleted ==>
        outcome == RemoveFailed(StoragePath(slot, old(documents[slot]).file))
      ensures SlotOf(slot) == Step(old(SlotOf(slot)), RemoveFinished(deleted))
      ensures forall s :: s != slot ==> SlotOf(s) == old(SlotOf(s))
      ensures progress == old(progress) && submissionStatus == old(submissionStatus)
      ensures isSubmitted == old(isSubmitted)
    {
      var entry := documents[slot];
      if !entry.Stored? {
        return NothingToRemove;
      }
      var path := StoragePath(slot, entry.file);
      if !deleted {
        return RemoveFailed(path);
      }
      documents := documents[slot := Empty];
      uploadedDocs := uploadedDocs[slot := false];
      validity := validity[slot := true];
      outcome := Removed(path);
    }

    /** `isAllDocsUploaded`: every flag of `uploadedDocs` is set. */
    function IsAllDocsUploaded(): (all: bool)
      reads this
      requires Valid()
      ensures all <==> forall s: Slot :: uploadedDocs[s]
      ensures all <==> forall s: Slot :: documents[s].Stored?
    {
      var all := forall i :: 0 <= i < |AllSlots| ==> uploadedDocs[AllSlots[i]];
      assert all ==> forall s: Slot :: uploadedDocs[s] by {
        if all {
          forall s: Slot
            ensures uploadedDocs[s]
          {
            assert uploadedDocs[AllSlots[Position(s)]];
          }
        }
      }
      all
    }

    /** `handleSubmit`: records, for each slot in key order, whether it is
        uploaded. Reading the profile first throws on a corrupt entry, and
        then nothing is recorded. */
    method HandleSubmit(profile: StoredProfile) returns (submitted: bool)
      requires Valid()
      modifies this
      ensures Valid()
      ensures submitted <==> profile.Profile?
      ensures submitted ==> forall s: Slot :: s in submissionStatus
      ensures submitted ==> forall s :: s in submissionStatus ==> submissionStatus[s] == StatusText(uploadedDocs[s])
      ensures !submitted ==> submissionStatus == old(submissionStatus)
      ensures documents == old(documents) && uploadedDocs == old(uploadedDocs) && validity == old(validity)
      ensures progress == old(progress) && isSubmitted == old(isSubmitted)
    {
      if profile.Corrupt? {
        return false;
      }
      var status: map<Slot, string> := map[];
      var i := 0;
      while i < |AllSlots|
        invariant 0 <= i <= |AllSlots|
        invariant forall k :: 0 <= k < i ==> AllSlots[k] in status
        invariant forall s :: s in status ==> status[s] == StatusText(uploadedDocs[s])
      {
        var slot := AllSlots[i];
        status := status[slot := StatusText(uploadedDocs[slot])];
        i := i + 1;
      }
      assert forall s: Slot :: s in status by {
        forall s: Slot
          ensures s in status
        {
          assert AllSlots[Position(s)] == s;
        }
      }
      submissionStatus := status;
      submitted := true;
    }
  }

  /** The Submit button, shown only once every slot is uploaded: with a
      stored profile that parses it reports every slot as `Uploaded`; with a
      corrupt or `null` one `handleSubmit` throws and records nothing. */
  method SubmitWhenComplete(c: DocumentsComponent, profile: StoredProfile) returns (submitted: bool)
    requires c.Valid() && c.IsAllDocsUploaded()
    modifies c
    ensures c.Valid()
    ensures submitted <==> profile.Profile?
    ensures submitted ==> forall s: Slot :: s in c.submissionStatus && c.submissionStatus[s] == "Uploaded"
    ensures !submitted ==> c.submissionStatus == old(c.submissionStatus)
    ensures c.documents == old(c.documents) && c.uploadedDocs == old(c.uploadedDocs)
    ensures c.validity == old(c.validity) && c.progress == old(c.progress) && c.isSubmitted == old(c.isSubmitted)
  {
    submitted := c.HandleSubmit(profile);
  }
}
