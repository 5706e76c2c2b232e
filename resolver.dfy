/**
 * Resolving a user-typed identifier reference (a full UUID, a short id, a
 * name prefix or a MAC suffix) to the id of the single record it denotes.
 */
module Resolver {
  import opened Wrappers
  import opened PyStrings

  /**
   * A record as the API returns it. `name` is the value found at the name
   * path (by default `attributes/name`) and `mac` the value at `meta/mac`;
   * `None` stands for a path that is not present in the record.
   */
  datatype Record = Record(id: string, name: Option<string>, mac: Option<string>)

  /** The three matching modes; the mode is chosen once, before the scan. */
  datatype Mode = ExactUuid | MacSuffix | ShortIdOrName

  /**
   * The outcome of a lookup: the resolved id, or one of the two errors the
   * source raises (both as `KeyError`), with the parts of their messages.
   */
  datatype Lookup =
    | Found(id: string)
    | NotFound(reference: string)
    | Ambiguous(reference: string, shortIds: seq<string>)

  /** `shorten_id`: the first `-`-separated piece of an id. */
  function ShortenId(id: string): (short: string)
    ensures short <= id
    ensures '-' !in short
    ensures short == id || id[|short|] == '-'
  {
    Split(id, '-')[0]
  }

  /** `shorten_id` applied to each id in turn. */
  function ShortIds(ids: seq<string>): (shorts: seq<string>)
    ensures |shorts| == |ids|
    ensures forall k | 0 <= k < |ids| :: shorts[k] == ShortenId(ids[k])
  {
    seq(|ids|, k requires 0 <= k < |ids| => ShortenId(ids[k]))
  }

  /** The mode `lookup_resource_id` picks: `mac` wins over a reference that parses as a UUID. */
  function SelectMode(mac: bool, referenceIsUuid: bool): (mode: Mode)
    ensures mode == ExactUuid <==> !mac && referenceIsUuid
    ensures mode == MacSuffix <==> mac
  {
    if !mac && referenceIsUuid then ExactUuid
    else if mac then MacSuffix
    else ShortIdOrName
  }

  /**
   * The last `|reference|` characters of the MAC agree with the reference,
   * ignoring case: a case-insensitive suffix test for a non-empty reference.
   * Python reads `mac[-0:]` as the whole MAC, so an empty reference matches
   * only an empty MAC.
   */
  predicate MacMatches(mac: string, reference: string)
    ensures |reference| > 0 ==> (MacMatches(mac, reference) <==>
              |reference| <= |mac| && Lower(mac)[|mac| - |reference|..] == Lower(reference))
    ensures |reference| == 0 ==> (MacMatches(mac, reference) <==> mac == "")
  {
    if 0 < |reference| <= |mac| then
      LowerSlice(mac, |mac| - |reference|, |mac|);
      Lower(PySuffix(mac, |reference|)) == Lower(reference)
    else
      Lower(PySuffix(mac, |reference|)) == Lower(reference)
  }

  /**
   * The first `|reference|` characters of the name agree with the reference,
   * ignoring case: the reference is a case-insensitive prefix of the name.
   */
  predicate NamePrefixMatches(name: string, reference: string)
    ensures NamePrefixMatches(name, reference) <==>
              |reference| <= |name| && Lower(name)[..|reference|] == Lower(reference)
  {
    if |reference| <= |name| then
      LowerSlice(name, 0, |reference|);
      Lower(PyPrefix(name, |reference|)) == Lower(reference)
    else
      Lower(PyPrefix(name, |reference|)) == Lower(reference)
  }

  /**
   * Whether one record is a match for the reference in the given mode. In UUID
   * mode only an equal id matches; in MAC mode a record without a MAC never
   * matches; in name mode an equal short id matches whatever the name, and a
   * record without a name matches only through its short id.
   */
  predicate Matches(mode: Mode, r: Record, reference: string)
    ensures mode == ExactUuid ==> (Matches(mode, r, reference) <==> r.id == reference)
    ensures mode == MacSuffix && r.mac.None? ==> !Matches(mode, r, reference)
    ensures mode == ShortIdOrName && ShortenId(r.id) == reference ==> Matches(mode, r, reference)
    ensures mode == ShortIdOrName && r.name.None? ==> (Matches(mode, r, reference) <==> ShortenId(r.id) == reference)
  {
    match mode
    case ExactUuid => r.id == reference
    case MacSuffix => r.mac.Some? && MacMatches(r.mac.value, reference)
    case ShortIdOrName =>
      ShortenId(r.id) == reference || (r.name.Some? && NamePrefixMatches(r.name.value, reference))
  }

  /**
   * The ids of the matching records, in scan order: the contents of the list
   * `matches` after the loop has visited every record of `records`.
   */
  function MatchIds(records: seq<Record>, mode: Mode, reference: string): (ids: seq<string>)
    ensures |ids| <= |records|
  {
    if |records| == 0 then []
    else
      var last := records[|records| - 1];
      MatchIds(records[..|records| - 1], mode, reference)
        + (if Matches(mode, last, reference) then [last.id] else [])
  }

  /**
   * What `lookup_resource_id` returns or raises. In UUID mode the first record
   * whose id equals the reference ends the scan, and that id is the reference;
   * in the other modes exactly one match is a success.
   */
  function Resolve(records: seq<Record>, reference: string, mode: Mode): (result: Lookup)
    ensures !result.Found? ==> result.reference == reference
    ensures mode == ExactUuid ==> !result.Ambiguous? && (result.Found? ==> result.id == reference)
    ensures result.Ambiguous? ==> |result.shortIds| >= 2
    ensures result.Found? ==> exists i | 0 <= i < |records| :: records[i].id == result.id
  {
    if mode == ExactUuid then
      if exists i | 0 <= i < |records| :: records[i].id == reference then Found(reference)
      else NotFound(reference)
    else
      var ids := MatchIds(records, mode, reference);
      if |ids| == 0 then NotFound(reference)
      else if |ids| > 1 then Ambiguous(reference, ShortIds(ids))
      else
        MatchIdsMembers(records, mode, reference, 0);
        Found(ids[0])
  }

  const NotFoundTail := " does not exist"

  /**
   * The text of the `KeyError` raised for a failed lookup. "Does not exist"
   * is `Id: `, the reference and ` does not exist`; an ambiguity is
   * `Ambiguous id: `, the reference, and the short ids of the matches joined
   * with `", "` between parentheses.
   */
  function ErrorMessage(failure: Lookup): (msg: string)
    requires !failure.Found?
    ensures failure.NotFound? ==>
              "Id: " + failure.reference <= msg && msg[|"Id: " + failure.reference|..] == NotFoundTail
    ensures failure.Ambiguous? ==>
              var head := "Ambiguous id: " + failure.reference + " (";
              head <= msg && |msg| == |head| + |Join(failure.shortIds, ", ")| + 1
              && msg[|head|..|msg| - 1] == Join(failure.shortIds, ", ") && msg[|msg| - 1] == ')'
  {
    match failure
    case NotFound(reference) => "Id: " + reference + NotFoundTail
    case Ambiguous(reference, shortIds) => "Ambiguous id: " + reference + " (" + Join(shortIds, ", ") + ")"
  }

  /** `lookup_resource_id`, over an already fetched list of records. */
  method LookupResourceId(records: seq<Record>, reference: string, mac: bool, isUuid: string -> bool)
    returns (result: Lookup)
    ensures result == Resolve(records, reference, SelectMode(mac, isUuid(reference)))
  {
    var exact := !mac && isUuid(reference);
    ghost var mode := SelectMode(mac, isUuid(reference));
    var referenceLower := Lower(reference);
    var referenceLength := |reference|;
    var matches: seq<string> := [];
    for i := 0 to |records|
      invariant exact ==> matches == [] && forall j | 0 <= j < i :: records[j].id != reference
      invariant !exact ==> matches == MatchIds(records[..i], mode, reference)
    {
      var entry := records[i];
      if exact {
        if entry.id == reference {
          UuidModeIsExact(records, reference, i);
          return Found(entry.id);
        }
      } else if mac {
        assert mode == MacSuffix;
        MatchIdsStep(records, i, mode, reference);
        MacCondition(entry, reference);
        if entry.mac.Some? && Lower(PySuffix(entry.mac.value, referenceLength)) == referenceLower {
          matches := matches + [entry.id];
        }
      } else {
        assert mode == ShortIdOrName;
        MatchIdsStep(records, i, mode, reference);
        NameCondition(entry, reference);
        var shortId := ShortenId(entry.id);
        if shortId == reference {
          matches := matches + [entry.id];
        } else if entry.name.Some? && Lower(PyPrefix(entry.name.value, referenceLength)) == referenceLower {
          matches := matches + [entry.id];
        }
      }
    }
    ResolveAfterScan(records, reference, mode, matches);
    if |matches| == 0 {
      return NotFound(reference);
    } else if |matches| > 1 {
      return Ambiguous(reference, ShortIds(matches));
    }
    return Found(matches[0]);
  }

  /** The test the MAC branch of the loop performs is `Matches` in MAC mode. */
  lemma MacCondition(r: Record, reference: string)
    ensures Matches(MacSuffix, r, reference)
            == (r.mac.Some? && Lower(PySuffix(r.mac.value, |reference|)) == Lower(reference))
  {
  }

  /** The tests the name branch of the loop performs are `Matches` in name mode. */
  lemma NameCondition(r: Record, reference: string)
    ensures Matches(ShortIdOrName, r, reference)
            == (ShortenId(r.id) == reference
                || (r.name.Some? && Lower(PyPrefix(r.name.value, |reference|)) == Lower(reference)))
  {
  }

  /** The outcome once the whole list has been scanned without an early return. */
  lemma ResolveAfterScan(records: seq<Record>, reference: string, mode: Mode, matches: seq<string>)
    requires mode == ExactUuid ==> matches == [] && forall j | 0 <= j < |records| :: records[j].id != reference
    requires mode != ExactUuid ==> matches == MatchIds(records[..|records|], mode, reference)
    ensures Resolve(records, reference, mode)
            == if |matches| == 0 then NotFound(reference)
               else if |matches| > 1 then Ambiguous(reference, ShortIds(matches))
               else Found(matches[0])
  {
    assert records[..|records|] == records;
  }

  // ---------------------------------------------------------------------
  // Matching rules

  /** Changing the case of reference or name never changes a name match. */
  lemma NameMatchIgnoresCase(name: string, reference: string)
    ensures NamePrefixMatches(name, reference) == NamePrefixMatches(Lower(name), Lower(reference))
  {
    LowerIdempotent(name);
    LowerIdempotent(reference);
  }

  /** Changing the case of reference or MAC never changes a MAC match. */
  lemma MacMatchIgnoresCase(mac: string, reference: string)
    ensures MacMatches(mac, reference) == MacMatches(Lower(mac), Lower(reference))
  {
    var lm, lr := Lower(mac), Lower(reference);
    LowerIdempotent(mac);
    LowerIdempotent(reference);
    if |reference| == 0 {
      assert MacMatches(lm, lr) <==> lm == "";
    } else {
      assert |lr| == |reference| && |lm| == |mac|;
      assert MacMatches(lm, lr) <==> |lr| <= |lm| && Lower(lm)[|lm| - |lr|..] == Lower(lr);
    }
  }

  /**
   * The two failures are told apart by their text, and the text gives back
   * the reference a "does not exist" failure was raised for.
   */
  lemma ErrorMessageDistinguishes(f: Lookup, g: Lookup)
    requires !f.Found? && !g.Found?
    ensures f.NotFound? <==> ErrorMessage(f)[0] == 'I'
    ensures f.NotFound? && g.NotFound? && ErrorMessage(f) == ErrorMessage(g) ==> f == g
  {
    if f.NotFound? && g.NotFound? && ErrorMessage(f) == ErrorMessage(g) {
      var mf, mg := ErrorMessage(f), ErrorMessage(g);
      assert |mf| == 4 + |f.reference| + |NotFoundTail|;
      assert f.reference == mf[4..|mf| - |NotFoundTail|];
      assert g.reference == mg[4..|mg| - |NotFoundTail|];
    }
  }

  /** An ambiguous lookup's message lists, between parentheses, the short id of every match in scan order. */
  lemma AmbiguousMessageListsMatches(records: seq<Record>, reference: string, mode: Mode)
    requires Resolve(records, reference, mode).Ambiguous?
    ensures var msg := ErrorMessage(Resolve(records, reference, mode));
            var head := "Ambiguous id: " + reference + " (";
            head <= msg && msg[|head|..|msg| - 1] == Join(ShortIds(MatchIds(records, mode, reference)), ", ")
  {
  }

  // ---------------------------------------------------------------------
  // The list of matches

  lemma {:induction false} MatchIdsAppend(a: seq<Record>, b: seq<Record>, mode: Mode, reference: string)
    ensures MatchIds(a + b, mode, reference) == MatchIds(a, mode, reference) + MatchIds(b, mode, reference)
    decreases |b|
  {
    if |b| == 0 {
      assert a + b == a;
    } else {
      var b' := b[..|b| - 1];
      assert (a + b)[..|a + b| - 1] == a + b';
      assert (a + b)[|a + b| - 1] == b[|b| - 1];
      MatchIdsAppend(a, b', mode, reference);
    }
  }

  /** One more record scanned adds its id when it matches. */
  lemma MatchIdsStep(records: seq<Record>, i: nat, mode: Mode, reference: string)
    requires i < |records|
    ensures MatchIds(records[..i + 1], mode, reference)
            == MatchIds(records[..i], mode, reference)
               + (if Matches(mode, records[i], reference) then [records[i].id] else [])
  {
    assert records[..i + 1][..i] == records[..i];
  }

  lemma MatchIdsSingle(r: Record, mode: Mode, reference: string)
    ensures MatchIds([r], mode, reference) == if Matches(mode, r, reference) then [r.id] else []
  {
    assert [r][..0] == [];
  }

  /** No match at all leaves the list empty, and an empty list means no record matched. */
  lemma {:induction false} MatchIdsEmpty(records: seq<Record>, mode: Mode, reference: string)
    ensures MatchIds(records, mode, reference) == [] <==>
              forall i | 0 <= i < |records| :: !Matches(mode, records[i], reference)
    decreases |records|
  {
    if |records| > 0 {
      var init := records[..|records| - 1];
      MatchIdsEmpty(init, mode, reference);
      assert forall i | 0 <= i < |init| :: init[i] == records[i];
    }
  }

  /** Every id in the list is the id of a matching record. */
  lemma {:induction false} MatchIdsMembers(records: seq<Record>, mode: Mode, reference: string, k: nat)
    requires k < |MatchIds(records, mode, reference)|
    ensures exists i | 0 <= i < |records| ::
              records[i].id == MatchIds(records, mode, reference)[k] && Matches(mode, records[i], reference)
    decreases |records|
  {
    var init := records[..|records| - 1];
    if k < |MatchIds(init, mode, reference)| {
      MatchIdsMembers(init, mode, reference, k);
      var i :| 0 <= i < |init| && init[i].id == MatchIds(init, mode, reference)[k] && Matches(mode, init[i], reference);
      assert records[i] == init[i];
    } else {
      assert records[|records| - 1].id == MatchIds(records, mode, reference)[k];
    }
  }

  lemma ShortIdsAppend(a: seq<string>, b: seq<string>)
    ensures ShortIds(a + b) == ShortIds(a) + ShortIds(b)
  {
  }

  /** Splitting the records around one index splits the matches the same way. */
  lemma MatchIdsAround(records: seq<Record>, i: nat, mode: Mode, reference: string)
    requires i < |records|
    ensures MatchIds(records, mode, reference)
            == MatchIds(records[..i], mode, reference)
               + MatchIds([records[i]], mode, reference)
               + MatchIds(records[i + 1..], mode, reference)
  {
    assert records == records[..i] + [records[i]] + records[i + 1..];
    MatchIdsAppend(records[..i] + [records[i]], records[i + 1..], mode, reference);
    MatchIdsAppend(records[..i], [records[i]], mode, reference);
  }

  // ---------------------------------------------------------------------
  // Properties of the lookup

  /**
   * UUID mode: the lookup succeeds, with the reference as the id, exactly when
   * some record's id equals the reference; otherwise it fails with "does not
   * exist", whatever short ids or names the records have.
   */
  lemma UuidModeIsExact(records: seq<Record>, reference: string, k: nat)
    requires k < |records| && records[k].id == reference
    requires forall j | 0 <= j < k :: records[j].id != reference
    ensures Resolve(records, reference, ExactUuid) == Found(records[k].id)
  {
  }

  lemma UuidModeWithoutExactId(records: seq<Record>, reference: string)
    requires forall i | 0 <= i < |records| :: records[i].id != reference
    ensures Resolve(records, reference, ExactUuid) == NotFound(reference)
  {
  }

  /** "Does not exist" is raised exactly when no record matches. */
  lemma NotFoundIffNoMatch(records: seq<Record>, reference: string, mode: Mode)
    ensures Resolve(records, reference, mode) == NotFound(reference) <==>
              forall i | 0 <= i < |records| :: !Matches(mode, records[i], reference)
  {
    if mode != ExactUuid {
      MatchIdsEmpty(records, mode, reference);
    }
  }

  /** A unique matching record is the record the lookup returns. */
  lemma UniqueMatchIsFound(records: seq<Record>, reference: string, mode: Mode, i: nat)
    requires i < |records| && Matches(mode, records[i], reference)
    requires forall j | 0 <= j < |records| && j != i :: !Matches(mode, records[j], reference)
    ensures Resolve(records, reference, mode) == Found(records[i].id)
  {
    if mode != ExactUuid {
      MatchIdsAround(records, i, mode, reference);
      MatchIdsSingle(records[i], mode, reference);
      MatchIdsEmpty(records[..i], mode, reference);
      MatchIdsEmpty(records[i + 1..], mode, reference);
    }
  }

  lemma ShortIdsFive(a: seq<string>, x: string, b: seq<string>, y: string, c: seq<string>)
    ensures ShortIds(a + [x] + b + [y] + c)
            == ShortIds(a) + [ShortenId(x)] + ShortIds(b) + [ShortenId(y)] + ShortIds(c)
  {
    ShortIdsAppend(a + [x] + b + [y], c);
    ShortIdsAppend(a + [x] + b, [y]);
    ShortIdsAppend(a + [x], b);
    ShortIdsAppend(a, [x]);
  }

  lemma MatchIdsAroundTwo(records: seq<Record>, mode: Mode, reference: string, i: nat, j: nat)
    requires i < j < |records|
    ensures MatchIds(records, mode, reference)
            == MatchIds(records[..i], mode, reference) + MatchIds([records[i]], mode, reference)
               + MatchIds(records[i + 1..j], mode, reference) + MatchIds([records[j]], mode, reference)
               + MatchIds(records[j + 1..], mode, reference)
  {
    var a, x, b, y, c := records[..i], [records[i]], records[i + 1..j], [records[j]], records[j + 1..];
    assert records == a + x + b + y + c;
    MatchIdsAppend(a + x + b + y, c, mode, reference);
    MatchIdsAppend(a + x + b, y, mode, reference);
    MatchIdsAppend(a + x, b, mode, reference);
    MatchIdsAppend(a, x, mode, reference);
  }

  /**
   * Two matching records make the lookup ambiguous, and the error lists the
   * short ids of all matches in scan order, the two among them.
   */
  lemma TwoMatchesAreAmbiguous(records: seq<Record>, reference: string, mode: Mode, i: nat, j: nat)
    requires mode != ExactUuid
    requires i < j < |records|
    requires Matches(mode, records[i], reference) && Matches(mode, records[j], reference)
    ensures Resolve(records, reference, mode) == Ambiguous(reference,
              ShortIds(MatchIds(records[..i], mode, reference))
              + [ShortenId(records[i].id)]
              + ShortIds(MatchIds(records[i + 1..j], mode, reference))
              + [ShortenId(records[j].id)]
              + ShortIds(MatchIds(records[j + 1..], mode, reference)))
  {
    var a := MatchIds(records[..i], mode, reference);
    var b := MatchIds(records[i + 1..j], mode, reference);
    var c := MatchIds(records[j + 1..], mode, reference);
    var ids := a + [records[i].id] + b + [records[j].id] + c;
    MatchIdsAroundTwo(records, mode, reference, i, j);
    MatchIdsSingle(records[i], mode, reference);
    MatchIdsSingle(records[j], mode, reference);
    assert |ids| > 1;
    assert Resolve(records, reference, mode) == Ambiguous(reference, ShortIds(ids));
    ShortIdsFive(a, records[i].id, b, records[j].id, c);
  }

  /**
   * A successful lookup names a record that matches, and in the scanning
   * modes no other record matches.
   */
  lemma FoundIsTheOnlyMatch(records: seq<Record>, reference: string, mode: Mode, id: string)
    requires Resolve(records, reference, mode) == Found(id)
    ensures exists i | 0 <= i < |records| :: records[i].id == id && Matches(mode, records[i], reference)
    ensures mode != ExactUuid ==>
              forall i, j | 0 <= i < j < |records| :: !(Matches(mode, records[i], reference) && Matches(mode, records[j], reference))
  {
    if mode != ExactUuid {
      var ids := MatchIds(records, mode, reference);
      assert |ids| == 1 && ids[0] == id;
      MatchIdsMembers(records, mode, reference, 0);
      forall i, j | 0 <= i < j < |records|
        ensures !(Matches(mode, records[i], reference) && Matches(mode, records[j], reference))
      {
        if Matches(mode, records[i], reference) && Matches(mode, records[j], reference) {
          TwoMatchesAreAmbiguous(records, reference, mode, i, j);
        }
      }
    }
  }

  lemma NonMatchingRecordKeepsIds(a: seq<Record>, r: Record, b: seq<Record>, reference: string)
    requires r.id != reference
    ensures (exists i | 0 <= i < |a + [r] + b| :: (a + [r] + b)[i].id == reference)
            == (exists i | 0 <= i < |a + b| :: (a + b)[i].id == reference)
  {
    var ab := a + b;
    var arb := a + [r] + b;
    if exists i | 0 <= i < |arb| :: arb[i].id == reference {
      var i :| 0 <= i < |arb| && arb[i].id == reference;
      assert ab[if i < |a| then i else i - 1].id == reference;
    }
    if exists i | 0 <= i < |ab| :: ab[i].id == reference {
      var i :| 0 <= i < |ab| && ab[i].id == reference;
      assert arb[if i < |a| then i else i + 1].id == reference;
    }
  }

  lemma NonMatchingRecordKeepsMatches(a: seq<Record>, r: Record, b: seq<Record>, reference: string, mode: Mode)
    requires !Matches(mode, r, reference)
    ensures MatchIds(a + [r] + b, mode, reference) == MatchIds(a + b, mode, reference)
  {
    MatchIdsAppend(a + [r], b, mode, reference);
    MatchIdsAppend(a, [r], mode, reference);
    MatchIdsAppend(a, b, mode, reference);
    MatchIdsSingle(r, mode, reference);
  }

  /** A record that does not match may be added anywhere without changing the outcome. */
  lemma NonMatchingRecordIsIgnored(a: seq<Record>, r: Record, b: seq<Record>, reference: string, mode: Mode)
    requires !Matches(mode, r, reference)
    ensures Resolve(a + [r] + b, reference, mode) == Resolve(a + b, reference, mode)
  {
    if mode == ExactUuid {
      NonMatchingRecordKeepsIds(a, r, b, reference);
    } else {
      NonMatchingRecordKeepsMatches(a, r, b, reference, mode);
    }
  }
}
