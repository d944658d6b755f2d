/**
 * What the re-prompt loops of both programs do with one stripped input
 * line: the quit sentinel, and a 1-based choice from a numbered list of
 * `.csv` files.
 */
module Prompts {
  import opened Wrappers
  import opened PyText
  import opened PyInt
  import opened Seqs

  /** `choice.lower() == 'q'`: only "q" and "Q" lower-case to "q". */
  predicate IsQuit(choice: string)
  {
    choice == "q" || choice == "Q"
  }

  /** `[f for f in os.listdir() if f.endswith('.csv')]`, given the listing. */
  function CsvFiles(listing: seq<string>): seq<string>
  {
    Filter(listing, f => EndsWith(f, ".csv"))
  }

  /**
   * `int(choice) - 1` when that lies in `0 .. count - 1`; `None` where the
   * source prints an error and asks again (a `ValueError` or an index out of
   * range).
   */
  function ChoiceIndex(choice: string, count: nat): (r: Option<nat>)
    ensures r.Some? ==> r.value < count
  {
    match ParseInt(choice)
    case Some(k) => if 1 <= k <= count then Some(k - 1) else None
    case None => None
  }

  /** Typing the number `k` selects entry `k - 1` exactly when `1 <= k <= count`. */
  lemma ChoiceOfStr(k: int, count: nat)
    ensures ChoiceIndex(Str(k), count) == if 1 <= k <= count then Some(k - 1) else None
  {
    ParseStr(k);
  }

  /** The quit sentinel is never read as a number. */
  lemma QuitIsNoChoice(choice: string, count: nat)
    requires IsQuit(choice)
    ensures ChoiceIndex(choice, count) == None
  {
    StripUnchanged(choice);
  }

  /**
   * The listed `.csv` files keep their listing order: entry `i` of the
   * listing, if it ends in `.csv`, is numbered after exactly the `.csv`
   * entries before it.
   */
  lemma CsvFilesInOrder(listing: seq<string>, i: nat)
    requires i < |listing| && EndsWith(listing[i], ".csv")
    ensures var n := |CsvFiles(listing[..i])|; n < |CsvFiles(listing)| && CsvFiles(listing)[n] == listing[i]
  {
    FilterPosition(listing, f => EndsWith(f, ".csv"), i);
  }

  /** Every listed file is an entry of the directory listing whose name ends in `.csv`. */
  lemma CsvFilesMembers(listing: seq<string>)
    ensures forall f :: f in CsvFiles(listing) ==> f in listing && EndsWith(f, ".csv")
  {
    FilterSpec(listing, f => EndsWith(f, ".csv"));
  }
}
