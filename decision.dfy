/**
 * The reconciliation rule of the bumper: with the published `latest`
 * version in hand, keep the local version when it encodes strictly above
 * the published one, otherwise publish the published version with its patch
 * component raised by one. The runs that cannot reach a decision end with
 * exit code 1.
 */
module Decision {
  import opened Wrappers
  import opened Strings
  import opened VersionEncoder

  datatype AbortReason = ManifestUnreadable | RequestFailed | NoLatestVersion

  /** How a run ends: aborted (exit code 1) or with the version to use (exit code 0). */
  datatype Outcome = Abort(reason: AbortReason) | UseLocal(version: string) | Bump(version: string)

  function ExitCode(o: Outcome): (code: nat)
    ensures code == 1 <==> o.Abort?
    ensures code == 0 <==> !o.Abort?
  {
    if o.Abort? then 1 else 0
  }

  /** A version whose patch `parseInt` reads as a number: encodable, with a non-empty patch. */
  predicate Bumpable(ver: string) {
    Encodable(ver) && Split(ver, '.')[2] != ""
  }

  /**
   * The published version with component 2 replaced by parseInt(patch) + 1,
   * every other component, including any after the third, kept as it is.
   */
  function Bumped(published: string): (r: string)
    requires Bumpable(published)
    ensures Bumpable(r)
    ensures |Split(r, '.')| == |Split(published, '.')|
    ensures forall i :: 0 <= i < |Split(r, '.')| && i != 2 ==> Split(r, '.')[i] == Split(published, '.')[i]
    ensures Numbers(r) == (Numbers(published).0, Numbers(published).1, Numbers(published).2 + 1)
    ensures Split(r, '.')[2] == NatToString(Numbers(published).2 + 1)
  {
    var t := Split(published, '.');
    var patch := NatToString(Value(t[2]) + 1);
    var t' := t[2 := patch];
    assert forall i :: 0 <= i < |t'| ==> '.' !in t'[i];
    SplitJoin(t', '.');
    Join(t', '.')
  }

  /**
   * The decision block once the registry has answered: no truthy `latest`
   * aborts before anything is encoded; otherwise bump exactly when the
   * published version encodes at least as high as the local one.
   */
  function Decide(local: string, latest: Option<string>): (o: Outcome)
    requires Truthy(latest) ==> Encodable(local) && Encodable(latest.value)
                                && (Encode(latest.value) >= Encode(local) ==> Bumpable(latest.value))
    ensures !Truthy(latest) <==> o == Abort(NoLatestVersion)
    ensures Truthy(latest) ==> (o.Bump? <==> Encode(latest.value) >= Encode(local))
    ensures Truthy(latest) && Encode(latest.value) < Encode(local) ==> o == UseLocal(local)
    ensures o.UseLocal? ==> o.version == local
    ensures o.Bump? ==> o.version == Bumped(latest.value)
  {
    if !Truthy(latest) then Abort(NoLatestVersion)
    else if Encode(latest.value) >= Encode(local) then Bump(Bumped(latest.value))
    else UseLocal(local)
  }

  /** The manifest's fields the bumper reads. */
  datatype Manifest = Manifest(name: string, version: string)

  /** What the registry request gave: a failure, or a document with or without dist-tags.latest. */
  datatype Response = TransportError | Document(latest: Option<string>)

  /** What the encoder and the bump need: both versions encodable, and a readable patch when the run bumps. */
  predicate Decidable(manifest: Option<Manifest>, response: Response) {
    manifest.Some? && response.Document? && Truthy(response.latest) ==>
      var local, latest := manifest.value.version, response.latest.value;
      Encodable(local) && Encodable(latest) && (Encode(latest) >= Encode(local) ==> Bumpable(latest))
  }

  /**
   * One run: an unreadable manifest aborts before the registry is asked, a
   * failed request aborts, and otherwise the decision block runs.
   */
  function Run(manifest: Option<Manifest>, response: Response): (o: Outcome)
    requires Decidable(manifest, response)
    ensures manifest.None? ==> o == Abort(ManifestUnreadable)
    ensures manifest.Some? && response.TransportError? ==> o == Abort(RequestFailed)
    ensures manifest.Some? && response.Document? ==> o == Decide(manifest.value.version, response.latest)
    ensures ExitCode(o) == 0 <==> manifest.Some? && response.Document? && Truthy(response.latest)
  {
    match manifest
    case None => Abort(ManifestUnreadable)
    case Some(m) =>
      match response
      case TransportError => Abort(RequestFailed)
      case Document(latest) => Decide(m.version, latest)
  }

  // ------------------------------------------------------------- properties

  /** An unreadable manifest decides the run whatever the registry would have answered. */
  lemma ManifestFailureIgnoresRegistry(r1: Response, r2: Response)
    ensures Run(None, r1) == Run(None, r2) == Abort(ManifestUnreadable)
  {
  }

  /** When a bump happens the local version plays no part in the result. */
  lemma BumpIgnoresLocal(local1: string, local2: string, latest: string)
    requires Truthy(Some(latest)) && Encodable(local1) && Encodable(local2) && Bumpable(latest)
    requires Decide(local1, Some(latest)).Bump? && Decide(local2, Some(latest)).Bump?
    ensures Decide(local1, Some(latest)) == Decide(local2, Some(latest))
  {
  }

  /** A version equal to the published one is always bumped. */
  lemma EqualVersionsBump(ver: string)
    requires Bumpable(ver)
    ensures Decide(ver, Some(ver)) == Bump(Bumped(ver))
  {
  }

  /**
   * With equal component widths the rule is the intended one: the local
   * version is kept exactly when its (major, minor, patch) is strictly above
   * the published one.
   */
  lemma DecideUnderSameWidths(local: string, latest: string)
    requires Encodable(local) && Bumpable(latest) && SameWidths(local, latest)
    ensures Decide(local, Some(latest)).UseLocal? <==> TupleBelow(Numbers(latest), Numbers(local))
  {
    EncodeOrdersLikeTuples(latest, local);
  }

  // -------------------------------------------------------------- scenarios

  lemma BumpedDotted(ver: string, major: string, minor: string, patch: string)
    requires IsDigits(major) && IsDigits(minor) && IsDigits(patch)
    requires '.' !in major && '.' !in minor && '.' !in patch && patch != ""
    requires ver == major + "." + minor + "." + patch
    ensures Bumpable(ver)
    ensures Bumped(ver) == major + "." + minor + "." + NatToString(Value(patch) + 1)
  {
    EncodeDotted(ver, major, minor, patch);
    var t' := [major, minor, patch][2 := NatToString(Value(patch) + 1)];
    assert t' == [major, minor, NatToString(Value(patch) + 1)];
    JoinThree(major, minor, NatToString(Value(patch) + 1));
  }

  // ------------------------------------------------ encodings of the scenarios

  lemma Known110()
    ensures Encodable("1.1.0") && Encode("1.1.0") == 11100000
  {
    OneDigit('0');
    OneDigit('1');
    assert Pow10(1) == 10 && Pow10(2) == 100;
    EncodeOfVersion("1.1.0", "1", "1", "0");
  }

  lemma Known102()
    ensures Encodable("1.0.2") && Encode("1.0.2") == 11000200
  {
    OneDigit('0');
    OneDigit('1');
    OneDigit('2');
    assert Pow10(1) == 10 && Pow10(2) == 100;
    EncodeOfVersion("1.0.2", "1", "0", "2");
  }

  lemma Bumped102()
    ensures Bumpable("1.0.2") && Bumped("1.0.2") == "1.0.3"
  {
    OneDigit('2');
    assert NatToString(3) == "3";
    BumpedDotted("1.0.2", "1", "0", "2");
  }

  lemma Known100()
    ensures Encodable("1.0.0") && Encode("1.0.0") == 11000000
  {
    OneDigit('0');
    OneDigit('1');
    assert Pow10(1) == 10 && Pow10(2) == 100;
    EncodeOfVersion("1.0.0", "1", "0", "0");
  }

  lemma Known125()
    ensures Encodable("1.2.5") && Encode("1.2.5") == 11200500
  {
    OneDigit('1');
    OneDigit('2');
    OneDigit('5');
    assert Pow10(1) == 10 && Pow10(2) == 100;
    EncodeOfVersion("1.2.5", "1", "2", "5");
  }

  lemma Bumped125()
    ensures Bumpable("1.2.5") && Bumped("1.2.5") == "1.2.6"
  {
    OneDigit('5');
    assert NatToString(6) == "6";
    BumpedDotted("1.2.5", "1", "2", "5");
  }

  lemma Known200()
    ensures Encodable("2.0.0") && Encode("2.0.0") == 12000000
  {
    OneDigit('0');
    OneDigit('2');
    assert Pow10(1) == 10 && Pow10(2) == 100;
    EncodeOfVersion("2.0.0", "2", "0", "0");
  }

  lemma Known199()
    ensures Encodable("1.9.9") && Encode("1.9.9") == 11900900
    ensures Bumpable("1.9.9")
  {
    OneDigit('1');
    OneDigit('9');
    assert Pow10(1) == 10 && Pow10(2) == 100;
    EncodeOfVersion("1.9.9", "1", "9", "9");
    BumpedDotted("1.9.9", "1", "9", "9");
  }

  lemma Known1100()
    ensures Encodable("1.10.0") && Encode("1.10.0") == 11100000
  {
    OneDigit('0');
    OneDigit('1');
    TwoDigits('1', '0');
    assert Pow10(1) == 10 && Pow10(2) == 100;
    EncodeOfVersion("1.10.0", "1", "10", "0");
  }

  lemma Known190()
    ensures Encodable("1.9.0") && Encode("1.9.0") == 11900000
  {
    OneDigit('0');
    OneDigit('1');
    OneDigit('9');
    assert Pow10(1) == 10 && Pow10(2) == 100;
    EncodeOfVersion("1.9.0", "1", "9", "0");
  }

  lemma Bumped190()
    ensures Bumpable("1.9.0") && Bumped("1.9.0") == "1.9.1"
  {
    OneDigit('0');
    assert NatToString(1) == "1";
    BumpedDotted("1.9.0", "1", "9", "0");
  }

  lemma Known109()
    ensures Encodable("1.0.9") && Encode("1.0.9") == 11000900
    ensures Bumpable("1.0.9")
  {
    OneDigit('0');
    OneDigit('1');
    OneDigit('9');
    assert Pow10(1) == 10 && Pow10(2) == 100;
    EncodeOfVersion("1.0.9", "1", "0", "9");
    BumpedDotted("1.0.9", "1", "0", "9");
  }

  lemma Bumped109()
    ensures Bumpable("1.0.9") && Bumped("1.0.9") == "1.0.10"
  {
    OneDigit('9');
    assert NatToString(10) == NatToString(1) + "0" == "10";
    BumpedDotted("1.0.9", "1", "0", "9");
  }

  lemma Known1010()
    ensures Encodable("1.0.10") && Encode("1.0.10") == 11000100
  {
    OneDigit('0');
    OneDigit('1');
    TwoDigits('1', '0');
    assert Pow10(1) == 10 && Pow10(2) == 100;
    EncodeOfVersion("1.0.10", "1", "0", "10");
  }

  lemma Known12Empty()
    ensures Encodable("1.2.") && Split("1.2.", '.')[2] == ""
    ensures Encode("1.2.") == 11200000
  {
    OneDigit('1');
    OneDigit('2');
    assert Value("") == 0;
    assert Pow10(1) == 10 && Pow10(2) == 100 && Pow10(3) == 1000;
    EncodeOfVersion("1.2.", "1", "2", "");
  }

  /** Local 1.1.0 against published 1.0.2: the local version is kept. */
  lemma ScenarioLocalAhead()
    ensures Decide("1.1.0", Some("1.0.2")) == UseLocal("1.1.0")
  {
    Known110();
    Known102();
    Bumped102();
  }

  /** Local and published both 1.0.2: bump to 1.0.3. */
  lemma ScenarioEqual()
    ensures Decide("1.0.2", Some("1.0.2")) == Bump("1.0.3")
  {
    Known102();
    Bumped102();
  }

  /** Local 1.0.0 against published 1.2.5: bump from the published version to 1.2.6. */
  lemma ScenarioPublishedAhead()
    ensures Decide("1.0.0", Some("1.2.5")) == Bump("1.2.6")
  {
    Known100();
    Known125();
    Bumped125();
  }

  /** No latest version in the registry document: the run aborts with exit code 1. */
  lemma ScenarioNoLatest(m: Manifest)
    ensures Run(Some(m), Document(None)) == Abort(NoLatestVersion)
    ensures ExitCode(Run(Some(m), Document(None))) == 1
  {
  }

  /** A higher major is kept: local 2.0.0 against published 1.9.9 is not bumped. */
  lemma HigherMajorKept()
    ensures Decide("2.0.0", Some("1.9.9")) == UseLocal("2.0.0")
  {
    Known200();
    Known199();
  }

  /**
   * The patch is parsed only on the bump path: a published "1.2." with an
   * empty patch, against local 2.0.0, keeps the local version.
   */
  lemma KeptDespiteEmptyPatch()
    ensures Encodable("1.2.") && !Bumpable("1.2.")
    ensures Encodable("2.0.0") && Encode("1.2.") < Encode("2.0.0")
    ensures Decide("2.0.0", Some("1.2.")) == UseLocal("2.0.0")
  {
    Known200();
    Known12Empty();
  }

  /**
   * A wider local minor is discarded: local 1.10.0 encodes below published
   * 1.9.0, so the run bumps to 1.9.1 although 10 > 9.
   */
  lemma WiderLocalMinorDiscarded()
    ensures Decide("1.10.0", Some("1.9.0")) == Bump("1.9.1")
  {
    Known1100();
    Known190();
    Bumped190();
  }

  /**
   * The bump does not always encode higher: 1.0.9 bumps to 1.0.10, which
   * encodes below 1.0.9.
   */
  lemma BumpCanEncodeLower()
    ensures Bumpable("1.0.9") && Bumped("1.0.9") == "1.0.10"
    ensures Encodable("1.0.10") && Encode("1.0.10") < Encode("1.0.9")
  {
    Known109();
    Bumped109();
    Known1010();
  }
}
