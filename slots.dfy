/** One upload slot of the page, as a value: what the component's three
    state objects (`documents`, `uploadedDocs`, `validity`) hold for one
    document type, and how each asynchronous event changes it. The class in
    `upload_form.dfy` is specified against `Step`. */
module UploadSlots {
  import opened Text
  import Dob
  import Labels

  /** The five document types, in the order the state objects list them. */
  datatype Slot = GateScorecard | CasteCertificate | PwdCertificate | EwsCertificate | ExperienceLetter

  /** The property name of the slot in the state objects: a camel-case
      name, so it can stand as one segment of a Storage path. */
  function Key(slot: Slot): (k: string)
    ensures k != [] && !IsUpper(k[0])
    ensures forall i :: 0 <= i < |k| ==> k[i] != '/'
  {
    match slot
    case GateScorecard => "gateScorecard"
    case CasteCertificate => "casteCertificate"
    case PwdCertificate => "pwdCertificate"
    case EwsCertificate => "ewsCertificate"
    case ExperienceLetter => "experienceLetter"
  }

  /** Different slots have different keys. */
  lemma KeyInjective(a: Slot, b: Slot)
    requires Key(a) == Key(b)
    ensures a == b
  {
  }

  /** `Object.keys(uploadedDocs)`: insertion order. */
  const AllSlots: seq<Slot> := [GateScorecard, CasteCertificate, PwdCertificate, EwsCertificate, ExperienceLetter]

  /** Where a slot stands in `AllSlots`: every slot is listed. */
  function Position(slot: Slot): (i: nat)
    ensures i < |AllSlots| && AllSlots[i] == slot
  {
    match slot
    case GateScorecard => 0
    case CasteCertificate => 1
    case PwdCertificate => 2
    case EwsCertificate => 3
    case ExperienceLetter => 4
  }

  lemma AllSlotsComplete()
    ensures forall s: Slot :: s in AllSlots
  {
    forall s: Slot
      ensures s in AllSlots
    {
      assert AllSlots[Position(s)] == s;
    }
  }

  /** The browser `File` the user picked; only its name is used. */
  datatype File = File(name: string)

  /** `documents[slot]`: `null`, the raw `File` while its upload runs (and
      for good, if it fails), or `{file, url}` once it is stored. */
  datatype Entry = Empty | Picked(file: File) | Stored(file: File, url: string)

  datatype SlotState = SlotState(entry: Entry, uploaded: bool, valid: bool)

  /** Nothing chosen, not uploaded, and optimistically valid. */
  const Initial: SlotState := SlotState(Empty, false, true)

  /** How an upload ends: the transfer reports an error, the download URL
      cannot be fetched (the completion callback throws before it changes
      anything), or both succeed. */
  datatype UploadOutcome = TransferFailed | UrlFailed | Transferred(url: string)

  /** What `loadLocalStorageData` gives: `Corrupt` when `JSON.parse` throws
      or yields `null` (reading a property of it then throws); otherwise the
      profile's `dob`, absent when it is missing or not a string (then it is
      never `===` a string). */
  datatype StoredProfile = Corrupt | Profile(dob: Option<string>)

  /** The events that reach one slot, in the order they happen to arrive. */
  datatype Event =
    | FileChosen(file: File)
    | UploadFinished(file: File, outcome: UploadOutcome)
    | TextExtracted(text: Option<string>, profile: StoredProfile)
    | RemoveFinished(deleted: bool)

  /** The Storage object a slot's file is written to and deleted from: the
      folder `uploads`, a folder named after the slot, then the file name. */
  function StoragePath(slot: Slot, file: File): (path: string)
    ensures Split(path, '/') == ["uploads", Key(slot)] + Split(file.name, '/')
  {
    var k := Key(slot);
    assert '/' !in k;
    assert '/' !in "uploads";
    SplitAfterField(k, '/', file.name);
    SplitAfterField("uploads", '/', k + ['/'] + file.name);
    assert "uploads/" + k + "/" + file.name == "uploads" + ['/'] + (k + ['/'] + file.name);
    "uploads/" + k + "/" + file.name
  }

  /** A Storage path belongs to one slot and one file name: the upload of
      one slot never writes, and the removal of one slot never deletes,
      another slot's object. */
  lemma StoragePathNamesSlot(a: Slot, f: File, b: Slot, g: File)
    requires StoragePath(a, f) == StoragePath(b, g)
    ensures a == b && f == g
  {
    assert Key(a) == Split(StoragePath(a, f), '/')[1];
    KeyInjective(a, b);
    var x := "uploads/" + Key(a) + "/";
    assert StoragePath(a, f) == x + f.name && StoragePath(b, g) == x + g.name;
    assert (x + f.name)[|x|..] == f.name && (x + g.name)[|x|..] == g.name;
  }

  /** `uploadedDocs[slot]` holds exactly when the entry carries a URL. */
  predicate Consistent(s: SlotState) {
    s.uploaded <==> s.entry.Stored?
  }

  /** The verdict of an extraction: `None` when it throws (the OCR request
      failed or returned no text, or the stored profile is corrupt), else
      whether the stored dob equals the extracted one. */
  function Verdict(text: Option<string>, profile: StoredProfile): (v: Option<bool>)
    ensures v.Some? <==> text.Some? && profile.Profile?
    ensures v == Some(true) ==> profile.Profile? && profile.dob.Some?
  {
    if text.None? || profile.Corrupt? then None
    else Some(profile.dob == Some(Dob.ExtractDob(text.value)))
  }

  /** One event applied to one slot. */
  function Step(s: SlotState, e: Event): (r: SlotState)
    ensures Consistent(s) ==> Consistent(r)
    ensures r.entry == s.entry || r.entry.Stored? || (s.entry == Empty && r.entry.Picked?)
        || (s.entry.Stored? && r == Initial)
  {
    match e
    case FileChosen(f) =>
      if s.entry == Empty then s.(entry := Picked(f)) else s
    case UploadFinished(f, outcome) =>
      if outcome.Transferred? then s.(entry := Stored(f, outcome.url), uploaded := true) else s
    case TextExtracted(text, profile) =>
      var v := Verdict(text, profile);
      if v.Some? then s.(valid := v.value) else s
    case RemoveFinished(deleted) =>
      if s.entry.Stored? && deleted then Initial else s
  }

  /** A sequence of events applied in order. */
  function Run(s: SlotState, events: seq<Event>): SlotState
    decreases |events|
  {
    if events == [] then s else Run(Step(s, events[0]), events[1..])
  }

  // ---------------------------------------------------------------------------
  // Properties of the slot machine

  /** Every reachable slot is consistent, whatever the order of events. */
  lemma {:induction false} RunKeepsConsistent(s: SlotState, events: seq<Event>)
    requires Consistent(s)
    ensures Consistent(Run(s, events))
    decreases |events|
  {
    if events != [] {
      RunKeepsConsistent(Step(s, events[0]), events[1..]);
    }
  }

  /** The first pick wins: choosing a file stores it at once, so a second
      pick, even while the first upload is still running, changes nothing. */
  lemma SecondPickRefused(s: SlotState, f: File, g: File)
    ensures Step(Step(s, FileChosen(f)), FileChosen(g)) == Step(s, FileChosen(f))
    ensures s.entry == Empty ==> Step(s, FileChosen(f)).entry == Picked(f)
    ensures s.entry != Empty ==> Step(s, FileChosen(f)) == s
  {
  }

  /** Only a successful upload or an extraction moves a slot whose entry is
      still the raw file: picks are refused, removal throws on the missing
      `file` property, and a failed upload leaves the raw file in place. A
      slot whose upload failed therefore stays stuck. */
  predicate Inert(e: Event) {
    e.FileChosen? || e.RemoveFinished? || (e.UploadFinished? && !e.outcome.Transferred?)
  }

  lemma {:induction false} PickedIsStuck(s: SlotState, events: seq<Event>)
    requires s.entry.Picked?
    requires forall k :: 0 <= k < |events| ==> Inert(events[k])
    ensures Run(s, events) == s
    decreases |events|
  {
    if events != [] {
      assert Step(s, events[0]) == s;
      PickedIsStuck(s, events[1..]);
    }
  }

  /** A stored upload followed by a successful removal brings the slot back
      to its initial state, whatever the extraction found in between. */
  lemma UploadThenRemove(f: File, url: string, text: Option<string>, profile: StoredProfile)
    ensures Step(Step(Step(Step(Initial, FileChosen(f)), UploadFinished(f, Transferred(url))),
                      TextExtracted(text, profile)), RemoveFinished(true)) == Initial
  {
  }

  /** A failed removal, or a removal of a slot without a stored file,
      changes nothing. */
  lemma RemoveOnlyStored(s: SlotState, deleted: bool)
    ensures Step(s, RemoveFinished(deleted)) == s <==> !(s.entry.Stored? && deleted) || s == Initial
  {
  }

  /** After an extraction the slot is valid exactly when the stored dob equals
      the extracted one; a slot is never judged correct without a stored dob,
      and a dob it is judged correct against is either the `Not found`
      sentinel (no date in the text) or a rendered date `a/b/yyyy`. */
  lemma ValidityAfterExtraction(s: SlotState, text: string, dob: Option<string>)
    ensures Step(s, TextExtracted(Some(text), Profile(dob))).valid <==> dob == Some(Dob.ExtractDob(text))
    ensures Step(s, TextExtracted(Some(text), Profile(dob))).valid ==>
      dob.Some? && (dob.value == Dob.NotFound || Dob.DateShaped(dob.value))
  {
    var found := Dob.ExtractDob(text);
    assert Verdict(Some(text), Profile(dob)) == Some(dob == Some(found));
  }

  /** An extraction that fails leaves the slot as it was. */
  lemma FailedExtractionKeepsSlot(s: SlotState, text: Option<string>, profile: StoredProfile)
    requires text.None? || profile.Corrupt?
    ensures Step(s, TextExtracted(text, profile)) == s
  {
  }

  /** The extraction request runs on after the upload completes, so a removal
      can overtake it: the late verdict then lands on the emptied slot and
      the next file starts out with it. */
  lemma LateVerdictAfterRemove(f: File, url: string, text: string, dob: string, g: File)
    requires dob != Dob.ExtractDob(text)
    ensures var stored := Step(Step(Initial, FileChosen(f)), UploadFinished(f, Transferred(url)));
            var emptied := Step(stored, RemoveFinished(true));
            Step(Step(emptied, TextExtracted(Some(text), Profile(Some(dob)))), FileChosen(g))
              == SlotState(Picked(g), false, false)
  {
    var picked := Step(Initial, FileChosen(f));
    assert picked == SlotState(Picked(f), false, true);
    var stored := Step(picked, UploadFinished(f, Transferred(url)));
    assert stored == SlotState(Stored(f, url), true, true);
    assert Step(stored, RemoveFinished(true)) == Initial;
    var late := Step(Initial, TextExtracted(Some(text), Profile(Some(dob))));
    assert late == SlotState(Empty, false, true).(valid := false) by {
      MismatchFails(text, dob);
    }
  }

  /** A stored dob that differs from the extracted one fails the check. */
  lemma MismatchFails(text: string, dob: string)
    requires dob != Dob.ExtractDob(text)
    ensures Verdict(Some(text), Profile(Some(dob))) == Some(false)
  {
    assert Some(dob) != Some(Dob.ExtractDob(text));
  }

  /** The notice shown when a slot already holds a file: a fixed sentence
      around the slot's label, from which the key can be read back. */
  function AlreadyUploadedNotice(slot: Slot): (n: string)
    ensures |n| >= 29 && n[..28] == "You have already uploaded a " && n[|n| - 1] == '.'
    ensures Labels.Unspaced(n[28..|n| - 1]) == Key(slot)
    ensures forall i :: 28 <= i < |n| - 1 && IsUpper(n[i]) ==> 28 < i && n[i - 1] == ' '
  {
    var spaced := Labels.Spaced(Key(slot));
    var n := "You have already uploaded a " + spaced + ".";
    assert n[28..|n| - 1] == spaced;
    Labels.UnspacedSpaced(Key(slot));
    FramedSpacing("You have already uploaded a ", spaced);
    n
  }

  /** A label whose capitals each follow a space keeps that layout when it is
      framed by a sentence. */
  lemma FramedSpacing(p: string, r: string)
    requires forall i :: 0 <= i < |r| && IsUpper(r[i]) ==> 0 < i && r[i - 1] == ' '
    ensures forall i :: |p| <= i < |p| + |r| && IsUpper((p + r + ".")[i]) ==>
      |p| < i && (p + r + ".")[i - 1] == ' '
  {
    var n := p + r + ".";
    forall i | |p| <= i < |p| + |r| && IsUpper(n[i])
      ensures |p| < i && n[i - 1] == ' '
    {
      assert n[i] == r[i - |p|];
      if |p| < i {
        assert n[i - 1] == r[i - 1 - |p|];
      }
    }
  }

  /** Two slots never share a notice. */
  lemma NoticeNamesSlot(a: Slot, b: Slot)
    requires AlreadyUploadedNotice(a) == AlreadyUploadedNotice(b)
    ensures a == b
  {
    KeyInjective(a, b);
  }

  /** The entry `handleSubmit` writes for a slot. */
  function StatusText(uploaded: bool): (status: string)
    ensures status == "Uploaded" <==> uploaded
  {
    if uploaded then "Uploaded" else "Not Uploaded"
  }
}
