/**
 * Terms-of-service status lookup of the Firebase data service client
 * (src/gcp/firedata.ts). The status response is an input value; fetching it
 * over HTTP is not part of this model.
 */
module Firedata {

  datatype Option<+T> = None | Some(value: T)

  /** The thrown `FirebaseError`, reduced to its message. */
  datatype FirebaseError = FirebaseError(message: string)

  /** A value, or the `FirebaseError` the source throws instead of returning. */
  datatype Result<+T> = Ok(value: T) | Err(error: FirebaseError)

  /** The products whose terms of service the endpoint reports on. */
  datatype TosId = AppHosting | AppCheck

  /** The literal each product id is compared as. The App Check literal keeps
      the source's casing ("CHEcK"), so it is a different string from "APP_CHECK". */
  function TosIdLiteral(id: TosId): string
  {
    match id
    case AppHosting => "APP_HOSTING_TOS"
    case AppCheck => "APP_CHEcK"
  }

  /** `null` or `"ACCEPTED"`: the status has exactly these two values. */
  datatype AcceptanceStatus = Null | Accepted

  datatype TosAcceptanceStatus = TosAcceptanceStatus(status: AcceptanceStatus)

  /** One entry of the response. Its `tosId` is the string the server sent:
      the response is deserialised JSON, so nothing at run time confines it to
      the two known literals. */
  datatype ServiceTosStatus = ServiceTosStatus(tosId: string, serviceStatus: TosAcceptanceStatus)

  datatype GetTosStatusResponse = GetTosStatusResponse(perServiceStatus: seq<ServiceTosStatus>)

  const MissingStatusPrefix: string := "Missing terms of service status for  product: "

  /** The error thrown when the response has no entry for `id`. */
  function MissingStatusError(id: TosId): FirebaseError
  {
    FirebaseError(MissingStatusPrefix + TosIdLiteral(id))
  }

  /** True when no entry of `entries` carries `tosId`. */
  ghost predicate NoEntryFor(entries: seq<ServiceTosStatus>, tosId: string)
  {
    forall i :: 0 <= i < |entries| ==> entries[i].tosId != tosId
  }

  /** Reference definition: `i` is the position of the first entry carrying `tosId`. */
  ghost predicate IsFirstMatch(entries: seq<ServiceTosStatus>, tosId: string, i: int)
  {
    0 <= i < |entries| && entries[i].tosId == tosId &&
    forall j :: 0 <= j < i ==> entries[j].tosId != tosId
  }

  /** `Array.prototype.find` with the callback `tosStatus => tosStatus.tosId === tosId`:
      the first entry carrying `tosId`, or nothing (`undefined`). */
  function Find(entries: seq<ServiceTosStatus>, tosId: string): (r: Option<ServiceTosStatus>)
    ensures r.None? <==> NoEntryFor(entries, tosId)
    ensures r.Some? ==> exists i :: IsFirstMatch(entries, tosId, i) && r.value == entries[i]
  {
    if |entries| == 0 then None
    else if entries[0].tosId == tosId then
      assert IsFirstMatch(entries, tosId, 0);
      Some(entries[0])
    else
      var r := Find(entries[1..], tosId);
      if r.None? then
        assert NoEntryFor(entries, tosId) by {
          forall i | 0 <= i < |entries| ensures entries[i].tosId != tosId {
            if i > 0 { assert entries[i] == entries[1..][i - 1]; }
          }
        }
        r
      else
        assert exists i :: IsFirstMatch(entries, tosId, i) && r.value == entries[i] by {
          var i :| IsFirstMatch(entries[1..], tosId, i) && r.value == entries[1..][i];
          forall j | 0 <= j < i + 1 ensures entries[j].tosId != tosId {
            if j > 0 { assert entries[j] == entries[1..][j - 1]; }
          }
          assert IsFirstMatch(entries, tosId, i + 1);
        }
        r
  }

  /** `getAcceptanceStatus`: the status of the first entry for `id`; the
      missing-status error when there is none. */
  function GetAcceptanceStatus(response: GetTosStatusResponse, id: TosId): (r: Result<AcceptanceStatus>)
    ensures r.Err? <==> NoEntryFor(response.perServiceStatus, TosIdLiteral(id))
    ensures r.Err? ==> r.error == MissingStatusError(id)
    ensures r.Ok? ==> exists i :: IsFirstMatch(response.perServiceStatus, TosIdLiteral(id), i)
                                  && r.value == response.perServiceStatus[i].serviceStatus.status
  {
    match Find(response.perServiceStatus, TosIdLiteral(id))
    case None => Err(MissingStatusError(id))
    case Some(entry) => Ok(entry.serviceStatus.status)
  }

  /** `isProductTosAccepted`: whether the status is `"ACCEPTED"`; a missing
      entry propagates the error rather than reading as `false`. */
  function IsProductTosAccepted(response: GetTosStatusResponse, id: TosId): (r: Result<bool>)
    ensures r.Err? <==> NoEntryFor(response.perServiceStatus, TosIdLiteral(id))
    ensures r.Err? ==> r.error == MissingStatusError(id)
    ensures r.Ok? ==> exists i :: IsFirstMatch(response.perServiceStatus, TosIdLiteral(id), i)
                                  && (r.value <==> response.perServiceStatus[i].serviceStatus.status == Accepted)
  {
    match GetAcceptanceStatus(response, id)
    case Err(e) => Err(e)
    case Ok(status) => Ok(status == Accepted)
  }

  /** The first entry carrying the requested id decides the status. */
  lemma GetAcceptanceStatusOfFirstMatch(response: GetTosStatusResponse, id: TosId, i: int)
    requires IsFirstMatch(response.perServiceStatus, TosIdLiteral(id), i)
    ensures GetAcceptanceStatus(response, id) == Ok(response.perServiceStatus[i].serviceStatus.status)
  {
  }

  /** Whatever follows the first matching entry, later duplicates for the same
      product included, does not affect the result. */
  lemma LaterEntriesIgnored(entries: seq<ServiceTosStatus>, id: TosId, i: int, rest: seq<ServiceTosStatus>)
    requires IsFirstMatch(entries, TosIdLiteral(id), i)
    ensures GetAcceptanceStatus(GetTosStatusResponse(entries[..i + 1] + rest), id)
         == GetAcceptanceStatus(GetTosStatusResponse(entries), id)
  {
    var lit := TosIdLiteral(id);
    var longer := entries[..i + 1] + rest;
    assert IsFirstMatch(longer, lit, i) by {
      forall j | 0 <= j <= i ensures longer[j] == entries[j] { }
    }
    GetAcceptanceStatusOfFirstMatch(GetTosStatusResponse(longer), id, i);
    GetAcceptanceStatusOfFirstMatch(GetTosStatusResponse(entries), id, i);
  }

  /** `find` over a concatenation: the first part decides unless it has no match. */
  lemma {:induction false} FindAppend(s: seq<ServiceTosStatus>, t: seq<ServiceTosStatus>, tosId: string)
    ensures Find(s + t, tosId) == if Find(s, tosId).Some? then Find(s, tosId) else Find(t, tosId)
  {
    if |s| > 0 {
      assert (s + t)[0] == s[0];
      assert (s + t)[1..] == s[1..] + t;
      FindAppend(s[1..], t, tosId);
    } else {
      assert s + t == t;
    }
  }

  /** An entry that does not carry `tosId` is skipped by `find`. */
  lemma FindSkipsOther(e: ServiceTosStatus, t: seq<ServiceTosStatus>, tosId: string)
    requires e.tosId != tosId
    ensures Find([e] + t, tosId) == Find(t, tosId)
  {
  }

  /** Inserting an entry for another product anywhere leaves the outcome,
      status or error, unchanged. */
  lemma InsertOtherProductUnchanged(entries: seq<ServiceTosStatus>, k: int, e: ServiceTosStatus, id: TosId)
    requires 0 <= k <= |entries|
    requires e.tosId != TosIdLiteral(id)
    ensures GetAcceptanceStatus(GetTosStatusResponse(entries[..k] + [e] + entries[k..]), id)
         == GetAcceptanceStatus(GetTosStatusResponse(entries), id)
  {
    var lit := TosIdLiteral(id);
    var s, t := entries[..k], entries[k..];
    assert entries[..k] + [e] + entries[k..] == s + ([e] + t);
    assert entries == s + t;
    FindAppend(s, [e] + t, lit);
    FindSkipsOther(e, t, lit);
    FindAppend(s, t, lit);
  }

  /** Removing an entry for another product leaves the outcome unchanged. */
  lemma RemoveOtherProductUnchanged(entries: seq<ServiceTosStatus>, k: int, id: TosId)
    requires 0 <= k < |entries|
    requires entries[k].tosId != TosIdLiteral(id)
    ensures GetAcceptanceStatus(GetTosStatusResponse(entries[..k] + entries[k + 1..]), id)
         == GetAcceptanceStatus(GetTosStatusResponse(entries), id)
  {
    var shorter := entries[..k] + entries[k + 1..];
    assert shorter[..k] + [entries[k]] + shorter[k..] == entries;
    InsertOtherProductUnchanged(shorter, k, entries[k], id);
  }

  /** The entries of `entries` that carry `tosId`, in their order. */
  function EntriesFor(entries: seq<ServiceTosStatus>, tosId: string): (r: seq<ServiceTosStatus>)
    ensures forall e :: e in r <==> e in entries && e.tosId == tosId
  {
    if |entries| == 0 then []
    else if entries[0].tosId == tosId then [entries[0]] + EntriesFor(entries[1..], tosId)
    else EntriesFor(entries[1..], tosId)
  }

  /** Dropping every entry for other products leaves the outcome unchanged. */
  lemma {:induction false} OnlyOwnEntriesMatter(entries: seq<ServiceTosStatus>, id: TosId)
    ensures GetAcceptanceStatus(GetTosStatusResponse(EntriesFor(entries, TosIdLiteral(id))), id)
         == GetAcceptanceStatus(GetTosStatusResponse(entries), id)
  {
    var lit := TosIdLiteral(id);
    if |entries| > 0 {
      OnlyOwnEntriesMatter(entries[1..], id);
      var tail := EntriesFor(entries[1..], lit);
      if entries[0].tosId == lit {
        assert EntriesFor(entries, lit)[0] == entries[0];
      } else {
        FindSkipsOther(entries[0], entries[1..], lit);
        assert [entries[0]] + entries[1..] == entries;
      }
    }
  }

  /** `isProductTosAccepted` answers `true` exactly when the first entry for the
      product is `"ACCEPTED"` and `false` exactly when it is `null`. */
  lemma IsProductTosAcceptedOfFirstMatch(response: GetTosStatusResponse, id: TosId, i: int)
    requires IsFirstMatch(response.perServiceStatus, TosIdLiteral(id), i)
    ensures IsProductTosAccepted(response, id) == Ok(true)
        <==> response.perServiceStatus[i].serviceStatus.status == Accepted
    ensures IsProductTosAccepted(response, id) == Ok(false)
        <==> response.perServiceStatus[i].serviceStatus.status == Null
  {
  }

  /** The missing-status error names the product by its literal. */
  lemma MissingStatusErrorNamesProduct(response: GetTosStatusResponse, id: TosId)
    requires NoEntryFor(response.perServiceStatus, TosIdLiteral(id))
    ensures var m := GetAcceptanceStatus(response, id).error.message;
            |m| >= |TosIdLiteral(id)| && m[|m| - |TosIdLiteral(id)|..] == TosIdLiteral(id)
  {
  }

  /** The two product ids compare as different strings. */
  lemma TosIdLiteralInjective(a: TosId, b: TosId)
    requires TosIdLiteral(a) == TosIdLiteral(b)
    ensures a == b
  {
  }

  /** Comparison is exact: an entry spelled "APP_CHECK" is not the App Check
      entry, whose literal is "APP_CHEcK", so the lookup still fails. */
  lemma AppCheckLiteralIsCaseSensitive(status: AcceptanceStatus)
    ensures GetAcceptanceStatus(
              GetTosStatusResponse([ServiceTosStatus("APP_CHECK", TosAcceptanceStatus(status))]), AppCheck)
         == Err(MissingStatusError(AppCheck))
  {
  }
}
