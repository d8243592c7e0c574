/** The separator detector `_autodetect_sep`: try each candidate delimiter in
    a fixed order on a preview of the file and keep the first one whose header
    holds the three required columns. */
module Separator {
  import opened Wrappers
  import opened Columns

  /** The candidates, in the order they are tried. */
  const Candidates: seq<string> := [",", ";", "\t", "|"]

  /** What reading the preview with one delimiter gives: the reader raised,
      or the header's column names. */
  datatype ParseOutcome = ParseFailed | Parsed(columns: seq<string>)

  /** Raised when no candidate gives the required columns. */
  datatype DetectError = SeparatorNotDetected

  /** A candidate is accepted when its preview parses and the required names
      are a subset of its columns. */
  predicate Accepts(o: ParseOutcome) {
    o.Parsed? && HasRequired(o.columns)
  }

  /** Candidate `k` is accepted and no earlier one is. */
  predicate IsFirstAccepted(read: string -> ParseOutcome, k: int) {
    0 <= k < |Candidates|
    && Accepts(read(Candidates[k]))
    && forall j :: 0 <= j < k ==> !Accepts(read(Candidates[j]))
  }

  /** `_autodetect_sep(path)`, with `read(sep)` standing for
      `pd.read_csv(path, sep=sep, nrows=100)`. It returns the first accepted
      candidate, skips the ones whose parse raised, and fails when none is
      accepted. */
  method AutodetectSep(read: string -> ParseOutcome) returns (r: Result<string, DetectError>)
    ensures r.Success? ==> exists k :: IsFirstAccepted(read, k) && r.value == Candidates[k]
    ensures r.Failure? ==> r.error == SeparatorNotDetected
                           && forall k :: 0 <= k < |Candidates| ==> !Accepts(read(Candidates[k]))
  {
    for i := 0 to |Candidates|
      invariant forall j :: 0 <= j < i ==> !Accepts(read(Candidates[j]))
    {
      var sep := Candidates[i];
      match read(sep)
      case ParseFailed =>
      case Parsed(columns) =>
        if HasRequired(columns) {
          assert IsFirstAccepted(read, i);
          return Success(sep);
        }
    }
    return Failure(SeparatorNotDetected);
  }

  /** At most one candidate is the first accepted one, so detection is
      deterministic. */
  lemma FirstAcceptedUnique(read: string -> ParseOutcome, k: int, k': int)
    requires IsFirstAccepted(read, k) && IsFirstAccepted(read, k')
    ensures k == k'
  {
  }

  /** Whenever some candidate is accepted, a first accepted one exists at or
      before it: detection fails only when every candidate is rejected. */
  lemma {:induction false} FirstAcceptedExists(read: string -> ParseOutcome, k: int)
    requires 0 <= k < |Candidates| && Accepts(read(Candidates[k]))
    ensures exists f :: 0 <= f <= k && IsFirstAccepted(read, f)
  {
    if forall j :: 0 <= j < k ==> !Accepts(read(Candidates[j])) {
      assert IsFirstAccepted(read, k);
    } else {
      var j :| 0 <= j < k && Accepts(read(Candidates[j]));
      FirstAcceptedExists(read, j);
    }
  }

  /** A detected separator's header passes the column check of the map
      builder. */
  lemma AcceptedHasNoMissingColumns(o: ParseOutcome)
    requires Accepts(o)
    ensures MissingColumns(o.columns) == []
  {
  }
}
