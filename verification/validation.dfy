/** `validateForm` of the create-vault page: from the typed member rows
    and the chosen threshold to either the list of normalised member
    addresses the vault is deployed with, or the first error found. */
module MemberValidation {
  import opened Wrappers
  import opened Text

  /** The address library the page calls: `isAddress` accepts a
      well-formed (and, when mixed-case, correctly checksummed) address,
      `getAddress` turns one into its canonical checksummed spelling. Both
      are foreign code, so the model keeps them abstract. */
  datatype AddressCodec = AddressCodec(isAddress: string -> bool, getAddress: string -> string)

  /** The errors `validateForm` throws, in the order it checks for them. */
  datatype ValidationError =
    | NoMembers
    | InvalidAddress(entry: string)
    | DuplicateMembers
    | ThresholdOutOfRange(memberCount: nat)

  /** A row counts as filled when its trimmed text is non-empty, that is,
      truthy. */
  predicate IsFilled(row: string) {
    Trim(row) != []
  }

  /** `members.filter((member) => member.trim())`. */
  function Filled(rows: seq<string>): (r: seq<string>)
    ensures |r| <= |rows|
    ensures forall x :: x in r ==> x in rows && IsFilled(x)
    ensures r == [] <==> forall i :: 0 <= i < |rows| ==> !IsFilled(rows[i])
  {
    if rows == [] then []
    else
      var rest := Filled(rows[1..]);
      assert forall i :: 1 <= i < |rows| ==> rows[i] == rows[1..][i - 1];
      if IsFilled(rows[0]) then [rows[0]] + rest else rest
  }

  /** Filtering works row by row, so it keeps the filled rows in the order
      they were typed. */
  lemma {:induction false} FilledConcat(a: seq<string>, b: seq<string>)
    ensures Filled(a + b) == Filled(a) + Filled(b)
  {
    if a == [] {
      assert a + b == b;
    } else {
      assert (a + b)[1..] == a[1..] + b;
      FilledConcat(a[1..], b);
    }
  }

  /** Blank rows never change the outcome of validation: adding or
      removing one anywhere leaves it as it was. */
  lemma BlankRowIgnored(codec: AddressCodec, before: seq<string>, blank: string, after: seq<string>, threshold: int)
    requires IsBlank(blank)
    ensures Validate(codec, before + [blank] + after, threshold) == Validate(codec, before + after, threshold)
  {
    FilledSkipsBlank(before, blank, after);
  }

  lemma FilledSkipsBlank(before: seq<string>, blank: string, after: seq<string>)
    requires IsBlank(blank)
    ensures Filled(before + [blank] + after) == Filled(before + after)
  {
    TrimEmptyIffBlank(blank);
    assert Filled([blank]) == [] by {
      assert [blank][1..] == [];
    }
    FilledConcat(before + [blank], after);
    FilledConcat(before, [blank]);
    assert before + [blank] + after == (before + [blank]) + after;
    assert Filled(before + [blank]) == Filled(before);
    FilledConcat(before, after);
  }

  /** Every trimmed entry is accepted by the address library. */
  predicate AllAddresses(codec: AddressCodec, entries: seq<string>) {
    forall i :: 0 <= i < |entries| ==> codec.isAddress(Trim(entries[i]))
  }

  /** The canonical spelling of each trimmed entry, position by position. */
  function Normalised(codec: AddressCodec, entries: seq<string>): (r: seq<string>)
    ensures |r| == |entries|
  {
    seq(|entries|, i requires 0 <= i < |entries| => codec.getAddress(Trim(entries[i])))
  }

  /** The index of the first entry the address library rejects. */
  predicate FirstInvalidAt(codec: AddressCodec, entries: seq<string>, k: int) {
    && 0 <= k < |entries|
    && !codec.isAddress(Trim(entries[k]))
    && AllAddresses(codec, entries[..k])
  }

  /** The `map` over the filled rows whose callback throws on the first
      entry that is not an address and otherwise returns its canonical
      spelling. It either maps every entry or fails at the first bad one,
      never yielding a partial list. */
  function NormaliseAll(codec: AddressCodec, entries: seq<string>): (r: Result<seq<string>, ValidationError>)
    ensures r.Ok? <==> AllAddresses(codec, entries)
    ensures r.Ok? ==> r.value == Normalised(codec, entries)
    ensures r.Err? ==> exists k :: FirstInvalidAt(codec, entries, k) && r.error == InvalidAddress(entries[k])
  {
    if entries == [] then Ok([])
    else if !codec.isAddress(Trim(entries[0])) then
      assert FirstInvalidAt(codec, entries, 0);
      Err(InvalidAddress(entries[0]))
    else
      var tail := entries[1..];
      assert forall i :: 1 <= i < |entries| ==> entries[i] == tail[i - 1];
      match NormaliseAll(codec, tail)
      case Ok(rest) =>
        var r := [codec.getAddress(Trim(entries[0]))] + rest;
        assert r == Normalised(codec, entries);
        Ok(r)
      case Err(e) =>
        var k :| FirstInvalidAt(codec, tail, k) && e == InvalidAddress(tail[k]);
        assert entries[..k + 1] == [entries[0]] + tail[..k];
        assert FirstInvalidAt(codec, entries, k + 1);
        Err(e)
  }

  /** No value occurs twice. */
  predicate Distinct(s: seq<string>) {
    forall i, j :: 0 <= i < j < |s| ==> s[i] != s[j]
  }

  /** `new Set(s)`: the values of `s`. */
  function Elements(s: seq<string>): set<string> {
    set x | x in s
  }

  lemma {:induction false} ElementsSplit(s: seq<string>)
    requires s != []
    ensures Elements(s) == {s[0]} + Elements(s[1..])
  {
  }

  lemma {:induction false} ElementsBound(s: seq<string>)
    ensures |Elements(s)| <= |s|
  {
    if s != [] {
      ElementsSplit(s);
      ElementsBound(s[1..]);
    }
  }

  /** The page's duplicate test, comparing the size of the set of values
      with the length of the list, holds exactly when the list is
      duplicate-free. */
  lemma {:induction false} SetSizeDetectsDuplicates(s: seq<string>)
    ensures |Elements(s)| == |s| <==> Distinct(s)
  {
    if s != [] {
      var tail := s[1..];
      ElementsSplit(s);
      SetSizeDetectsDuplicates(tail);
      ElementsBound(tail);
      if s[0] in tail {
        assert Elements(s) == Elements(tail);
        var j :| 0 <= j < |tail| && tail[j] == s[0];
        assert s[j + 1] == s[0];
      } else {
        assert s[0] !in Elements(tail);
        if Distinct(tail) {
          forall i, j | 0 <= i < j < |s| ensures s[i] != s[j] {
            if i > 0 { assert s[i] == tail[i - 1] && s[j] == tail[j - 1]; }
            else { assert s[j] == tail[j - 1]; }
          }
        } else {
          var i, j :| 0 <= i < j < |tail| && tail[i] == tail[j];
          assert s[i + 1] == s[j + 1];
        }
      }
    }
  }

  /** `validateForm()`: drop blank rows, require one member at least,
      require every entry to be an address, reject duplicates after
      normalisation, and require `1 <= threshold <= number of members`.
      On success the result is the canonical spelling of the filled rows,
      in order, with no duplicates and the threshold within range. */
  function Validate(codec: AddressCodec, rows: seq<string>, threshold: int): (r: Result<seq<string>, ValidationError>)
    ensures r.Ok? ==> r.value == Normalised(codec, Filled(rows))
    ensures r.Ok? ==> |r.value| == |Filled(rows)| >= 1 && Distinct(r.value)
    ensures r.Ok? ==> 1 <= threshold <= |r.value|
  {
    var filled := Filled(rows);
    if |filled| == 0 then Err(NoMembers)
    else match NormaliseAll(codec, filled)
      case Err(e) => Err(e)
      case Ok(valid) =>
        SetSizeDetectsDuplicates(valid);
        if |Elements(valid)| != |valid| then Err(DuplicateMembers)
        else if threshold < 1 || threshold > |valid| then Err(ThresholdOutOfRange(|valid|))
        else Ok(valid)
  }

  /** Validation succeeds exactly when there is a filled row, every filled
      row is an address, the canonical spellings are pairwise distinct and
      the threshold lies between 1 and the number of filled rows. */
  lemma ValidateSucceedsIff(codec: AddressCodec, rows: seq<string>, threshold: int)
    ensures Validate(codec, rows, threshold).Ok? <==>
      && Filled(rows) != []
      && AllAddresses(codec, Filled(rows))
      && Distinct(Normalised(codec, Filled(rows)))
      && 1 <= threshold <= |Filled(rows)|
  {
    var filled := Filled(rows);
    if filled != [] && AllAddresses(codec, filled) {
      SetSizeDetectsDuplicates(Normalised(codec, filled));
    }
  }

  /** The first check: a form whose rows are all blank after trimming is
      rejected for having no member, and only such a form is. */
  lemma NoMembersIffAllBlank(codec: AddressCodec, rows: seq<string>, threshold: int)
    ensures Validate(codec, rows, threshold) == Err(NoMembers) <==>
      forall i :: 0 <= i < |rows| ==> IsBlank(rows[i])
  {
    forall i | 0 <= i < |rows| ensures IsFilled(rows[i]) <==> !IsBlank(rows[i]) {
      TrimEmptyIffBlank(rows[i]);
    }
    var filled := Filled(rows);
    if filled != [] {
      var r := NormaliseAll(codec, filled);
      if r.Err? {
        var k :| FirstInvalidAt(codec, filled, k) && r.error == InvalidAddress(filled[k]);
      }
      var x := filled[0];
      assert x in filled;
    }
  }

  /** The second check: a filled row the address library rejects makes the
      whole validation fail, naming the first such row as typed; no
      partial list is returned. Conversely this error names a filled row
      that is not an address and is preceded only by addresses. */
  lemma InvalidAddressReported(codec: AddressCodec, rows: seq<string>, threshold: int, k: int)
    requires FirstInvalidAt(codec, Filled(rows), k)
    ensures Validate(codec, rows, threshold) == Err(InvalidAddress(Filled(rows)[k]))
  {
    var filled := Filled(rows);
    var r := NormaliseAll(codec, filled);
    var k' :| FirstInvalidAt(codec, filled, k') && r.error == InvalidAddress(filled[k']);
    FirstInvalidUnique(codec, filled, k, k');
  }

  /** At most one index is the first rejected entry. */
  lemma FirstInvalidUnique(codec: AddressCodec, entries: seq<string>, k1: int, k2: int)
    requires FirstInvalidAt(codec, entries, k1) && FirstInvalidAt(codec, entries, k2)
    ensures k1 == k2
  {
  }

  lemma InvalidAddressOnlyForBadRow(codec: AddressCodec, rows: seq<string>, threshold: int, entry: string)
    requires Validate(codec, rows, threshold) == Err(InvalidAddress(entry))
    ensures exists k :: FirstInvalidAt(codec, Filled(rows), k) && entry == Filled(rows)[k]
  {
  }

  /** The third check: once every entry is an address, two rows that
      normalise to the same canonical address (however differently they
      were typed) are rejected as duplicates. */
  lemma DuplicatesRejected(codec: AddressCodec, rows: seq<string>, threshold: int, i: int, j: int)
    requires AllAddresses(codec, Filled(rows))
    requires 0 <= i < j < |Filled(rows)|
    requires codec.getAddress(Trim(Filled(rows)[i])) == codec.getAddress(Trim(Filled(rows)[j]))
    ensures Validate(codec, rows, threshold) == Err(DuplicateMembers)
  {
    var v := Normalised(codec, Filled(rows));
    SetSizeDetectsDuplicates(v);
    assert v[i] == v[j];
  }

  /** The last check: with distinct valid members, a threshold outside
      `1 ..` (number of filled rows) is rejected, and the error carries
      that number, not the number of rows. */
  lemma ThresholdRangeChecked(codec: AddressCodec, rows: seq<string>, threshold: int)
    requires Filled(rows) != [] && AllAddresses(codec, Filled(rows))
    requires Distinct(Normalised(codec, Filled(rows)))
    ensures Validate(codec, rows, threshold) ==
      if 1 <= threshold <= |Filled(rows)| then Ok(Normalised(codec, Filled(rows)))
      else Err(ThresholdOutOfRange(|Filled(rows)|))
  {
    SetSizeDetectsDuplicates(Normalised(codec, Filled(rows)));
  }

  /** The text of each thrown error. */
  function ValidationMessage(e: ValidationError): (m: string)
    ensures |m| > 0
  {
    match e
    case NoMembers => "At least one member address is required"
    case InvalidAddress(entry) => "Invalid address: " + entry
    case DuplicateMembers => "Duplicate member addresses not allowed"
    case ThresholdOutOfRange(n) => "Threshold must be between 1 and " + DecimalString(n)
  }
}
