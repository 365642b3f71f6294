/**
  api/status_checker.py: the status of a credential from the lists its `credentialStatus` entries
  name. Fetching a list and verifying its signature are parameters.
 */
module StatusChecker {
  import opened Common
  import opened Bitstring
  import opened StatusCodec

  /** What is read of a BitstringStatusListCredential; an absent text field is "". */
  datatype ListCredential = ListCredential(
    hasListType: bool,
    subjectIsList: bool,
    encodedList: string,
    statusPurpose: string,
    placeholder: bool)

  /** The statusListIndex field: int(...) of it succeeds, fails, or the field is absent. */
  datatype IndexField = Number(n: int) | NotANumber | NoIndex

  datatype StatusEntry = StatusEntry(
    entryType: string,
    statusPurpose: Option<string>,
    listUrl: Option<string>,
    index: IndexField)

  datatype CheckResult = CheckResult(
    statusPurpose: string,
    listUrl: string,
    index: int,
    currentValue: int,
    validForPurpose: bool)

  /** Where the answers come from: resolve_did_fn may be absent, and then no signature is checked. */
  datatype Sources = Sources(
    fetch: string -> Option<ListCredential>,
    signatureOk: Option<ListCredential -> bool>)

  function OrElse(text: Option<string>, default: string): string {
    if text.Some? then text.value else default
  }

  /** An entry that could not be checked: current_value -1 and not valid. */
  function Unchecked(purpose: string, url: string, index: int): CheckResult {
    CheckResult(purpose, url, index, -1, false)
  }

  /** _check_single_entry */
  function CheckSingleEntry(gzip: Gzip, src: Sources, entry: StatusEntry): CheckResult {
    if entry.entryType != "BitstringStatusListEntry" then
      Unchecked(OrElse(entry.statusPurpose, "unknown"), OrElse(entry.listUrl, "unknown"), -1)
    else
      var purpose, url := OrElse(entry.statusPurpose, ""), OrElse(entry.listUrl, "");
      if entry.index.NotANumber? then Unchecked(purpose, url, -1)
      else
        var index := if entry.index.Number? then entry.index.n else -1;
        if url == "" then Unchecked(purpose, "", index)
        else
          var list := src.fetch(url);
          if list.None? then Unchecked(purpose, url, index)
          else if src.signatureOk.Some? && !src.signatureOk.value(list.value) then Unchecked(purpose, url, index)
          else if list.value.encodedList == "" then Unchecked(purpose, url, index)
          else
            var raw := DecodeBitstring(gzip, list.value.encodedList);
            if raw.None? then Unchecked(purpose, url, index)
            else
              var bit := GetBit(raw.value, index);
              if bit.None? then Unchecked(purpose, url, index)
              else CheckResult(purpose, url, index, bit.value, bit.value == 0)
  }

  /** The results of all entries, in their order. */
  function CheckEntries(gzip: Gzip, src: Sources, entries: seq<StatusEntry>): (results: seq<CheckResult>)
    ensures |results| == |entries|
  {
    seq(|entries|, i requires 0 <= i < |entries| => CheckSingleEntry(gzip, src, entries[i]))
  }

  predicate AllValid(results: seq<CheckResult>) {
    forall i :: 0 <= i < |results| ==> results[i].validForPurpose
  }

  /** check_credential_status: the loop that updates `results` and `overall_valid`. */
  method CheckCredentialStatus(gzip: Gzip, src: Sources, entries: seq<StatusEntry>)
    returns (results: seq<CheckResult>, overallValid: bool)
    ensures results == CheckEntries(gzip, src, entries)
    ensures overallValid <==> AllValid(results)
  {
    results, overallValid := [], true;
    hide CheckSingleEntry;
    for i := 0 to |entries|
      invariant results == CheckEntries(gzip, src, entries)[..i]
      invariant overallValid <==> AllValid(results)
    {
      var result := CheckSingleEntry(gzip, src, entries[i]);
      ghost var before := results;
      results := results + [result];
      assert CheckEntries(gzip, src, entries)[i] == result;
      assert AllValid(results) <==> AllValid(before) && result.validForPurpose by {
        assert results[|before|] == result && forall k :: 0 <= k < |before| ==> results[k] == before[k];
      }
      if !result.validForPurpose {
        overallValid := false;
      }
    }
  }

  // ----- What a verdict means

  /** The entry names a list that is served, correctly signed and decodable, and the list holds this bit. */
  ghost predicate ResolvesTo(gzip: Gzip, src: Sources, entry: StatusEntry, bit: Bit) {
    && entry.entryType == "BitstringStatusListEntry"
    && entry.listUrl.Some? && entry.listUrl.value != "" && entry.index.Number?
    && var list := src.fetch(entry.listUrl.value);
    && list.Some? && list.value.encodedList != ""
    && (src.signatureOk.Some? ==> src.signatureOk.value(list.value))
    && var raw := DecodeBitstring(gzip, list.value.encodedList);
    && raw.Some? && 0 <= entry.index.n < 8 * |raw.value| && BitAt(raw.value, entry.index.n) == bit
  }

  /** A result is valid exactly when the entry resolves to 0, and reports 1 exactly when it resolves to 1. */
  lemma SingleEntryMeaning(gzip: Gzip, src: Sources, entry: StatusEntry)
    ensures CheckSingleEntry(gzip, src, entry).validForPurpose <==> ResolvesTo(gzip, src, entry, 0)
    ensures CheckSingleEntry(gzip, src, entry).currentValue == 1 <==> ResolvesTo(gzip, src, entry, 1)
  {
    hide DecodeBitstring, BitAt;
  }

  /**
    The rest of a result: it reports the bit or -1, -1 exactly when the entry resolves to neither,
    and it names the entry's purpose, URL and index, or what stands for the missing ones.
   */
  lemma ResultFields(gzip: Gzip, src: Sources, entry: StatusEntry)
    ensures var result := CheckSingleEntry(gzip, src, entry);
            && result.currentValue in {-1, 0, 1}
            && (result.currentValue == 0 <==> ResolvesTo(gzip, src, entry, 0))
            && (result.currentValue == -1 <==> !ResolvesTo(gzip, src, entry, 0) && !ResolvesTo(gzip, src, entry, 1))
            && (entry.statusPurpose.Some? ==> result.statusPurpose == entry.statusPurpose.value)
            && (entry.statusPurpose.None? ==>
                  result.statusPurpose == if entry.entryType == "BitstringStatusListEntry" then "" else "unknown")
            && (entry.listUrl.Some? ==> result.listUrl == entry.listUrl.value)
            && (entry.listUrl.None? ==>
                  result.listUrl == if entry.entryType == "BitstringStatusListEntry" then "" else "unknown")
            && result.index == if entry.entryType == "BitstringStatusListEntry" && entry.index.Number?
                               then entry.index.n else -1
  {
    hide DecodeBitstring, BitAt;
  }

  /** A credential is valid overall exactly when every entry resolves and every bit is 0. */
  lemma OverallValidIff(gzip: Gzip, src: Sources, entries: seq<StatusEntry>)
    ensures AllValid(CheckEntries(gzip, src, entries))
       <==> forall i :: 0 <= i < |entries| ==> ResolvesTo(gzip, src, entries[i], 0)
  {
    hide ResolvesTo, CheckSingleEntry;
    forall i | 0 <= i < |entries|
      ensures CheckEntries(gzip, src, entries)[i].validForPurpose <==> ResolvesTo(gzip, src, entries[i], 0)
    {
      SingleEntryMeaning(gzip, src, entries[i]);
    }
    if AllValid(CheckEntries(gzip, src, entries)) {
      forall i | 0 <= i < |entries| ensures ResolvesTo(gzip, src, entries[i], 0) {
        assert CheckEntries(gzip, src, entries)[i].validForPurpose;
      }
    }
  }
}
