/** ActiveScaffold's Update action: the before-filters that guard `edit` and `update`, the
    transactional `do_update` and the responses chosen from its outcome. Persistence is an
    oracle: the mapping of the form parameters, the two validations and the two saves are
    functions handed in with the request, and the database is a log of committed writes. */
module ScaffoldUpdate {
  import opened Wrappers

  /** A record as far as the action sees it: opaque attributes, its label and the errors
      attached to its base. */
  datatype Record = Record(attrs: map<string, string>, toLabel: string, baseErrors: seq<string>)

  /** What a bang-save does: return a value, or raise one of the two rescued exceptions. */
  datatype SaveOutcome = Returned(truthy: bool) | RaisedRecordInvalid | RaisedStaleObject

  /** The persistence layer as seen by `do_update`. */
  datatype Persistence = Persistence(
    mapParams: Record -> Record,      // update_record_from_params(@record, update columns, params[:record])
    valid: Record -> bool,            // @record.valid?
    associatedValid: Record -> bool,  // @record.associated_valid?
    save: Record -> SaveOutcome,      // @record.save!
    saveAssociated: Record -> SaveOutcome) // @record.save_associated!

  /** One committed change to the database. */
  datatype Write = WroteRecord(r: Record) | WroteAssociated(r: Record)

  /** The calls `do_update` makes, in the order it makes them. */
  datatype Call = MapParams | BeforeUpdateSave | Valid | AssociatedValid | Save | SaveAssociated

  const StaleMessage: string := "Version inconsistency - this record has been modified since you started editing it."

  /** The default `before_update_save(record)`: it does nothing. */
  function DefaultBeforeUpdateSave(r: Record): (r': Record)
    ensures r' == r
  {
    r
  }

  /** The state that `do_update` leaves behind. */
  datatype UpdateState = UpdateState(record: Record, successful: bool, writes: seq<Write>, trace: seq<Call>)

  /** The record after the parameters are mapped and the hook has run. */
  function Prepared(found: Record, p: Persistence, hook: Record -> Record): Record
  {
    hook(p.mapParams(found))
  }

  /** `do_update` from a found record and the committed writes before the request. Inside
      the transaction: map, hook, both validations, then the saves; an exception rolls the
      writes back, RecordInvalid is swallowed, StaleObjectError adds one base error and
      clears `successful`. */
  function DoUpdateOutcome(found: Record, p: Persistence, hook: Record -> Record, writes0: seq<Write>): UpdateState
  {
    var r := Prepared(found, p, hook);
    var ok := p.valid(r) && p.associatedValid(r);
    var checked := [MapParams, BeforeUpdateSave, Valid, AssociatedValid];
    if !ok then UpdateState(r, false, writes0, checked)
    else match p.save(r)
      case RaisedRecordInvalid => UpdateState(r, true, writes0, checked + [Save])
      case RaisedStaleObject =>
        UpdateState(r.(baseErrors := r.baseErrors + [StaleMessage]), false, writes0, checked + [Save])
      case Returned(saved) =>
        if !saved then UpdateState(r, true, writes0, checked + [Save])
        else match p.saveAssociated(r)
          case RaisedRecordInvalid => UpdateState(r, true, writes0, checked + [Save, SaveAssociated])
          case RaisedStaleObject =>
            UpdateState(r.(baseErrors := r.baseErrors + [StaleMessage]), false, writes0,
                        checked + [Save, SaveAssociated])
          case Returned(assoc) =>
            UpdateState(r, true,
                        writes0 + [WroteRecord(r)] + (if assoc then [WroteAssociated(r)] else []),
                        checked + [Save, SaveAssociated])
  }

  /** Both validations run on every update, after the hook and whatever they return: the
      array literal does not short-circuit. */
  lemma BothValidationsAlwaysRun(found: Record, p: Persistence, hook: Record -> Record, writes0: seq<Write>)
    ensures var t := DoUpdateOutcome(found, p, hook, writes0).trace;
      |t| >= 4 && t[..4] == [MapParams, BeforeUpdateSave, Valid, AssociatedValid]
  {
  }

  /** `successful` holds only if both validations passed. */
  lemma SuccessfulNeedsBothValid(found: Record, p: Persistence, hook: Record -> Record, writes0: seq<Write>)
    ensures var r := Prepared(found, p, hook);
      DoUpdateOutcome(found, p, hook, writes0).successful ==> p.valid(r) && p.associatedValid(r)
  {
  }

  /** `save!` is attempted iff both validations passed; `save_associated!` iff, in addition,
      `save!` returned a truthy value. */
  lemma SavesAttemptedWhen(found: Record, p: Persistence, hook: Record -> Record, writes0: seq<Write>)
    ensures var r := Prepared(found, p, hook);
      var t := DoUpdateOutcome(found, p, hook, writes0).trace;
      (Save in t <==> p.valid(r) && p.associatedValid(r)) &&
      (SaveAssociated in t <==> p.valid(r) && p.associatedValid(r) && p.save(r) == Returned(true))
  {
    var r := Prepared(found, p, hook);
    var t := DoUpdateOutcome(found, p, hook, writes0).trace;
    assert t[..4] == [MapParams, BeforeUpdateSave, Valid, AssociatedValid];
    assert Save !in t[..4] && SaveAssociated !in t[..4];
    if !(p.valid(r) && p.associatedValid(r)) {
      assert t == t[..4];
    } else if p.save(r) != Returned(true) {
      assert t == t[..4] + [Save];
    }
  }

  /** A stale version adds exactly the one base error and forces `successful` to false; the
      transaction is rolled back. */
  lemma StaleObjectAddsOneError(found: Record, p: Persistence, hook: Record -> Record, writes0: seq<Write>)
    requires var r := Prepared(found, p, hook);
      p.valid(r) && p.associatedValid(r) &&
      (p.save(r) == RaisedStaleObject ||
       (p.save(r) == Returned(true) && p.saveAssociated(r) == RaisedStaleObject))
    ensures var r := Prepared(found, p, hook);
      var s := DoUpdateOutcome(found, p, hook, writes0);
      !s.successful && s.record.baseErrors == r.baseErrors + [StaleMessage]
      && s.record.attrs == r.attrs && s.writes == writes0
  {
  }

  /** A RecordInvalid raised by a save is swallowed: `successful` keeps the value the
      validations gave it (true), and nothing is committed. */
  lemma RecordInvalidLeavesSuccessful(found: Record, p: Persistence, hook: Record -> Record, writes0: seq<Write>)
    requires var r := Prepared(found, p, hook);
      p.valid(r) && p.associatedValid(r) &&
      (p.save(r) == RaisedRecordInvalid ||
       (p.save(r) == Returned(true) && p.saveAssociated(r) == RaisedRecordInvalid))
    ensures var s := DoUpdateOutcome(found, p, hook, writes0);
      s.successful && s.record == Prepared(found, p, hook) && s.writes == writes0
  {
  }

  /** Writes are committed only by a successful, exception-free transaction, and only the
      prepared record's. */
  lemma WritesOnlyOnSuccess(found: Record, p: Persistence, hook: Record -> Record, writes0: seq<Write>)
    ensures var s := DoUpdateOutcome(found, p, hook, writes0);
      var r := Prepared(found, p, hook);
      s.writes == writes0 ||
      (s.successful && (s.writes == writes0 + [WroteRecord(r)] ||
                        s.writes == writes0 + [WroteRecord(r), WroteAssociated(r)]))
  {
  }

  /** With the default hook the saved record is the one the parameters produced. */
  lemma DefaultHookKeepsMappedRecord(found: Record, p: Persistence, writes0: seq<Write>)
    ensures var s := DoUpdateOutcome(found, p, DefaultBeforeUpdateSave, writes0);
      s.record.attrs == p.mapParams(found).attrs && s.record.toLabel == p.mapParams(found).toLabel
  {
  }

  // ---------------------------------------------------------------- filters and responses

  datatype HttpMethod = Get | Post | Put | Delete | Head
  datatype Action = EditAction | UpdateAction | OtherAction
  datatype CrudType = CreateCrud | ReadCrud | UpdateCrud | DeleteCrud

  /** Where the before-filter chain stops a request. */
  datatype FilterOutcome = Proceed | Unauthorized | RedirectToIndex

  /** `update_authorized?`: authorized_for?(:action => :update), with the granted CRUD types
      handed in. */
  predicate UpdateAuthorized(granted: set<CrudType>) { UpdateCrud in granted }

  /** The filters in the order they are registered: authorization for edit and update, then
      `verify` of POST or PUT for update, which redirects to index. */
  function RunFilters(action: Action, granted: set<CrudType>, m: HttpMethod): (r: FilterOutcome)
    ensures r == Proceed <==>
      (action != OtherAction ==> UpdateAuthorized(granted)) && (action == UpdateAction ==> m == Post || m == Put)
    ensures r == Unauthorized <==> action != OtherAction && !UpdateAuthorized(granted)
    ensures r == RedirectToIndex ==> action == UpdateAction
  {
    if action != OtherAction && !UpdateAuthorized(granted) then Unauthorized
    else if action == UpdateAction && !(m == Post || m == Put) then RedirectToIndex
    else Proceed
  }

  datatype Format = Html | Js | Xml | Json | Yaml | OtherFormat

  datatype Response =
    | RenderUpdateForm(layout: bool)
    | ReturnToMain(flash: Option<string>)
    | RenderUpdateRjs
    | RenderXml
    | RenderJson
    | RenderYaml
    | NotAcceptable
    | FilterHalted(why: FilterOutcome)

  /** The `respond_to` of `edit`. */
  function EditResponse(f: Format, successful: bool): (r: Response)
    ensures f == Html ==> (successful <==> r == RenderUpdateForm(true)) && (!successful <==> r == ReturnToMain(None))
    ensures f == Js ==> r == RenderUpdateForm(false)
    ensures f != Html && f != Js ==> r == NotAcceptable
  {
    match f
    case Html => if successful then RenderUpdateForm(true) else ReturnToMain(None)
    case Js => RenderUpdateForm(false)
    case _ => NotAcceptable
  }

  /** The flash of a successful HTML update ('Updated %s' with the record's label). */
  function UpdatedFlash(r: Record): string { "Updated " + r.toLabel }

  /** The `respond_to` of `update`. */
  function UpdateResponse(f: Format, successful: bool, record: Record): (r: Response)
    ensures f == Html ==> (successful <==> r == ReturnToMain(Some(UpdatedFlash(record))))
    ensures f == Html ==> (!successful <==> r == RenderUpdateForm(true))
    ensures f == Js ==> r == RenderUpdateRjs
    ensures f == OtherFormat <==> r == NotAcceptable
  {
    match f
    case Html => if successful then ReturnToMain(Some(UpdatedFlash(record))) else RenderUpdateForm(true)
    case Js => RenderUpdateRjs
    case Xml => RenderXml
    case Json => RenderJson
    case Yaml => RenderYaml
    case OtherFormat => NotAcceptable
  }

  // ---------------------------------------------------------------- the controller

  class UpdateController {
    /** @record */
    var record: Option<Record>
    /** @successful, None while it is nil: a controller serves one request. */
    var successful: Option<bool>
    /** the committed writes of the database */
    var writes: seq<Write>
    /** the persistence calls of the last do_update */
    var trace: seq<Call>

    constructor (writes: seq<Write>)
      ensures record == None && successful == None && this.writes == writes && trace == []
      ensures Successful()
    {
      record := None;
      successful := None;
      this.writes := writes;
      trace := [];
    }

    /** `successful?`: a flag never set reads as true. */
    predicate Successful()
      reads this
    {
      successful.None? || successful.value
    }

    /** `do_update`, with `found` the record that `find_if_allowed(params[:id], :update)`
        returned and `hook` the controller's `before_update_save`. */
    method DoUpdate(found: Record, p: Persistence, hook: Record -> Record)
      modifies this
      ensures var s := DoUpdateOutcome(found, p, hook, old(writes));
        record == Some(s.record) && successful == Some(s.successful) && writes == s.writes && trace == s.trace
    {
      record := Some(found);
      var snapshot := writes;
      var r := p.mapParams(found);
      record := Some(r);
      trace := [MapParams];
      r := hook(r);
      trace := trace + [BeforeUpdateSave];
      // both validations are evaluated before their results are combined
      var v := p.valid(r);
      var av := p.associatedValid(r);
      trace := trace + [Valid, AssociatedValid];
      var ok := v && av;
      successful := Some(ok);
      record := Some(r);
      if ok {
        trace := trace + [Save];
        var saved := p.save(r);
        if saved == RaisedRecordInvalid {
          writes := snapshot;
        } else if saved == RaisedStaleObject {
          writes := snapshot;
          record := Some(r.(baseErrors := r.baseErrors + [StaleMessage]));
          successful := Some(false);
        } else if saved.truthy {
          writes := writes + [WroteRecord(r)];
          trace := trace + [SaveAssociated];
          var assoc := p.saveAssociated(r);
          if assoc == RaisedRecordInvalid {
            writes := snapshot;
          } else if assoc == RaisedStaleObject {
            writes := snapshot;
            record := Some(r.(baseErrors := r.baseErrors + [StaleMessage]));
            successful := Some(false);
          } else if assoc.truthy {
            writes := writes + [WroteAssociated(r)];
          }
        }
      }
    }

    /** The `edit` action behind its filter: `do_edit` stores the found record, then the
        response follows the format and `successful?`. */
    method Edit(f: Format, granted: set<CrudType>, m: HttpMethod, found: Record) returns (resp: Response)
      modifies this
      ensures var gate := RunFilters(EditAction, granted, m);
        if gate != Proceed then resp == FilterHalted(gate) && record == old(record)
        else record == Some(found) && resp == EditResponse(f, old(Successful()))
      ensures successful == old(successful) && writes == old(writes) && trace == old(trace)
    {
      var gate := RunFilters(EditAction, granted, m);
      if gate != Proceed {
        return FilterHalted(gate);
      }
      record := Some(found);
      resp := EditResponse(f, Successful());
    }

    /** The `update` action behind its filters. */
    method Update(f: Format, granted: set<CrudType>, m: HttpMethod, found: Record, p: Persistence,
                  hook: Record -> Record) returns (resp: Response)
      modifies this
      ensures var gate := RunFilters(UpdateAction, granted, m);
        if gate != Proceed then
          resp == FilterHalted(gate) && record == old(record) && successful == old(successful)
          && writes == old(writes) && trace == old(trace)
        else
          var s := DoUpdateOutcome(found, p, hook, old(writes));
          record == Some(s.record) && successful == Some(s.successful) && writes == s.writes
          && trace == s.trace && resp == UpdateResponse(f, s.successful, s.record)
    {
      var gate := RunFilters(UpdateAction, granted, m);
      if gate != Proceed {
        return FilterHalted(gate);
      }
      DoUpdate(found, p, hook);
      resp := UpdateResponse(f, Successful(), record.value);
    }
  }

  /** A GET to `update` never reaches the persistence layer. */
  lemma GetUpdateNeverSaves(granted: set<CrudType>)
    ensures RunFilters(UpdateAction, granted, Get) != Proceed
  {
  }
}
