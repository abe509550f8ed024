/** The static Morse code table and its lookup (main.c, MORSE_TABLE and lookup_morse). */
module MorseTable {

  /** One row of the table: a dot/dash code and the character it stands for. */
  datatype Entry = Entry(code: string, ch: char)

  /** The table, in the order the source lists it: 26 letters, then the digits 1..9 and 0. */
  const Table: seq<Entry> := [
    Entry(".-", 'A'),    Entry("-...", 'B'),  Entry("-.-.", 'C'), Entry("-..", 'D'),
    Entry(".", 'E'),     Entry("..-.", 'F'),  Entry("--.", 'G'),  Entry("....", 'H'),
    Entry("..", 'I'),    Entry(".---", 'J'),  Entry("-.-", 'K'),  Entry(".-..", 'L'),
    Entry("--", 'M'),    Entry("-.", 'N'),    Entry("---", 'O'),  Entry(".--.", 'P'),
    Entry("--.-", 'Q'),  Entry(".-.", 'R'),   Entry("...", 'S'),  Entry("-", 'T'),
    Entry("..-", 'U'),   Entry("...-", 'V'),  Entry(".--", 'W'),  Entry("-..-", 'X'),
    Entry("-.--", 'Y'),  Entry("--..", 'Z'),
    Entry(".----", '1'), Entry("..---", '2'), Entry("...--", '3'), Entry("....-", '4'),
    Entry(".....", '5'), Entry("-....", '6'), Entry("--...", '7'), Entry("---..", '8'),
    Entry("----.", '9'), Entry("-----", '0')
  ]

  /** The character lookup_morse returns for a code it does not know. */
  const Unknown: char := '?'

  predicate IsMark(c: char) { c == '.' || c == '-' }

  /** The linear search of lookup_morse, started at row `i`: the character of the first row
      from `i` on whose code equals `code`, or `Unknown` once the end of the table (the source's
      NULL row) is reached. */
  function LookupFrom(code: string, i: nat): char
    requires i <= |Table|
    decreases |Table| - i
  {
    if i == |Table| then Unknown
    else if Table[i].code == code then Table[i].ch
    else LookupFrom(code, i + 1)
  }

  /** lookup_morse. What it returns is stated by LookupSpec. */
  function Lookup(code: string): char {
    LookupFrom(code, 0)
  }

  /** The search in the other direction: the code of the first row from `i` on whose character
      is `c`, or the empty string when there is none. */
  function CodeFrom(c: char, i: nat): string
    requires i <= |Table|
    decreases |Table| - i
  {
    if i == |Table| then []
    else if Table[i].ch == c then Table[i].code
    else CodeFrom(c, i + 1)
  }

  /** True when `c` is the character of some table row (every code is non-empty; see
      TableCharSpec). */
  predicate IsTableChar(c: char) {
    CodeFrom(c, 0) != []
  }

  /** True when `code` is the code of some table row. */
  predicate IsTableCode(code: string) {
    exists j | 0 <= j < |Table| :: Table[j].code == code
  }

  /** The code that transmits table character `c`: one to five marks. */
  function CodeOf(c: char): (code: string)
    requires IsTableChar(c)
    ensures 1 <= |code| <= 5 && forall m | 0 <= m < |code| :: IsMark(code[m])
  {
    CodeFromShape(c, 0);
    CodeFrom(c, 0)
  }

  /** No code is listed twice, so the first match of the search is the only one. The proof
      takes the rows in six bands of six, named by their row numbers, only to keep each proof
      obligation small. */
  lemma CodesDistinct()
    ensures forall j, k | 0 <= k < j < |Table| :: Table[k].code != Table[j].code
  {
    CodesDistinctRows0To5();
    CodesDistinctRows6To11();
    CodesDistinctRows12To17();
    CodesDistinctRows18To23();
    CodesDistinctRows24To29();
    CodesDistinctRows30To35();
  }

  lemma CodesDistinctRows0To5()
    ensures forall j, k | 0 <= j < 6 && 0 <= k < j :: Table[k].code != Table[j].code
  {
  }

  lemma CodesDistinctRows6To11()
    ensures forall j, k | 6 <= j < 12 && 0 <= k < j :: Table[k].code != Table[j].code
  {
  }

  lemma CodesDistinctRows12To17()
    ensures forall j, k | 12 <= j < 18 && 0 <= k < j :: Table[k].code != Table[j].code
  {
  }

  lemma CodesDistinctRows18To23()
    ensures forall j, k | 18 <= j < 24 && 0 <= k < j :: Table[k].code != Table[j].code
  {
  }

  lemma CodesDistinctRows24To29()
    ensures forall j, k | 24 <= j < 30 && 0 <= k < j :: Table[k].code != Table[j].code
  {
  }

  lemma CodesDistinctRows30To35()
    ensures forall j, k | 30 <= j < 36 && 0 <= k < j :: Table[k].code != Table[j].code
  {
  }

  /** Every code is one to five marks long. */
  lemma CodesAreMarks()
    ensures forall j | 0 <= j < |Table| :: 1 <= |Table[j].code| <= 5
    ensures forall j, m | 0 <= j < |Table| && 0 <= m < |Table[j].code| :: IsMark(Table[j].code[m])
  {
    CodeLengths();
  }

  lemma CodeLengths()
    ensures forall j | 0 <= j < |Table| :: 1 <= |Table[j].code| <= 5
  {
  }

  /** No character is listed twice (proved in the same six bands). */
  lemma CharsDistinct()
    ensures forall j, k | 0 <= k < j < |Table| :: Table[k].ch != Table[j].ch
  {
    CharsDistinctRows0To5();
    CharsDistinctRows6To11();
    CharsDistinctRows12To17();
    CharsDistinctRows18To23();
    CharsDistinctRows24To29();
    CharsDistinctRows30To35();
  }

  lemma CharsDistinctRows0To5()
    ensures forall j, k | 0 <= j < 6 && 0 <= k < j :: Table[k].ch != Table[j].ch
  {
  }

  lemma CharsDistinctRows6To11()
    ensures forall j, k | 6 <= j < 12 && 0 <= k < j :: Table[k].ch != Table[j].ch
  {
  }

  lemma CharsDistinctRows12To17()
    ensures forall j, k | 12 <= j < 18 && 0 <= k < j :: Table[k].ch != Table[j].ch
  {
  }

  lemma CharsDistinctRows18To23()
    ensures forall j, k | 18 <= j < 24 && 0 <= k < j :: Table[k].ch != Table[j].ch
  {
  }

  lemma CharsDistinctRows24To29()
    ensures forall j, k | 24 <= j < 30 && 0 <= k < j :: Table[k].ch != Table[j].ch
  {
  }

  lemma CharsDistinctRows30To35()
    ensures forall j, k | 30 <= j < 36 && 0 <= k < j :: Table[k].ch != Table[j].ch
  {
  }

  /** Every row's character is a capital letter or a digit; in particular none is `Unknown` or
      a space. */
  lemma CharsAlphanumeric()
    ensures forall j | 0 <= j < |Table| :: 'A' <= Table[j].ch <= 'Z' || '0' <= Table[j].ch <= '9'
  {
  }

  /** The same for any table character. */
  lemma TableCharAlphanumeric(c: char)
    requires IsTableChar(c)
    ensures 'A' <= c <= 'Z' || '0' <= c <= '9'
  {
    CodeOfRow(c);
    CharsAlphanumeric();
  }

  lemma {:induction false} CodeFromShape(c: char, i: nat)
    requires i <= |Table|
    ensures |CodeFrom(c, i)| <= 5 && forall m | 0 <= m < |CodeFrom(c, i)| :: IsMark(CodeFrom(c, i)[m])
    decreases |Table| - i
  {
    CodesAreMarks();
    if i < |Table| && Table[i].ch != c {
      CodeFromShape(c, i + 1);
    }
  }

  /** The search by character stops at the first row with that character. */
  lemma {:induction false} CodeFromRow(c: char, i: nat, j: nat)
    requires i <= j < |Table| && Table[j].ch == c
    requires forall k | i <= k < j :: Table[k].ch != c
    ensures CodeFrom(c, i) == Table[j].code
    decreases j - i
  {
    if i < j {
      assert Table[i].ch != c;
      CodeFromRow(c, i + 1, j);
    }
  }

  /** A non-empty result of the search by character is the code of a row with that character. */
  lemma {:induction false} CodeFromFound(c: char, i: nat)
    requires i <= |Table| && CodeFrom(c, i) != []
    ensures exists j | i <= j < |Table| :: Table[j].ch == c && Table[j].code == CodeFrom(c, i)
    decreases |Table| - i
  {
    if Table[i].ch != c {
      CodeFromFound(c, i + 1);
    }
  }

  /** The characters of the table are exactly the table characters, and CodeOf gives each row's
      character back that row's code. */
  lemma TableCharSpec(j: nat)
    requires j < |Table|
    ensures IsTableChar(Table[j].ch) && CodeOf(Table[j].ch) == Table[j].code
  {
    CharsDistinct();
    CodesAreMarks();
    CodeFromRow(Table[j].ch, 0, j);
  }

  /** A table character stands in a row together with its code. */
  lemma CodeOfRow(c: char)
    requires IsTableChar(c)
    ensures exists j | 0 <= j < |Table| :: Table[j].ch == c && Table[j].code == CodeOf(c)
  {
    CodeFromFound(c, 0);
  }

  /** The search by code stops at the first row with that code. */
  lemma {:induction false} LookupFromRow(code: string, i: nat, j: nat)
    requires i <= j < |Table| && Table[j].code == code
    requires forall k | i <= k < j :: Table[k].code != code
    ensures LookupFrom(code, i) == Table[j].ch
    decreases j - i
  {
    if i < j {
      assert Table[i].code != code;
      LookupFromRow(code, i + 1, j);
    }
  }

  /** A code no row from `i` on has runs the search to its end. */
  lemma {:induction false} LookupFromMissing(code: string, i: nat)
    requires i <= |Table| && forall j | i <= j < |Table| :: Table[j].code != code
    ensures LookupFrom(code, i) == Unknown
    decreases |Table| - i
  {
    if i < |Table| {
      LookupFromMissing(code, i + 1);
    }
  }

  /** lookup_morse returns the character of the row whose code is `code` and `Unknown` for a
      string that is no row's code; so its result is `Unknown` exactly when the code is not
      listed, and otherwise a table character whose code is `code`. */
  lemma LookupSpec(code: string)
    ensures forall j | 0 <= j < |Table| && Table[j].code == code :: Lookup(code) == Table[j].ch
    ensures Lookup(code) == Unknown <==> !IsTableCode(code)
    ensures Lookup(code) == Unknown || (IsTableChar(Lookup(code)) && CodeOf(Lookup(code)) == code)
  {
    if IsTableCode(code) {
      var j :| 0 <= j < |Table| && Table[j].code == code;
      CodesDistinct();
      LookupFromRow(code, 0, j);
      TableCharSpec(j);
      CharsAlphanumeric();
      forall j' | 0 <= j' < |Table| && Table[j'].code == code
        ensures Lookup(code) == Table[j'].ch
      {
        assert j' == j;
      }
    } else {
      LookupFromMissing(code, 0);
    }
  }

  /** CodeOf and Lookup are inverse: decoding the code of a table character gives it back. */
  lemma LookupCodeOf(c: char)
    requires IsTableChar(c)
    ensures Lookup(CodeOf(c)) == c
  {
    CodeOfRow(c);
    LookupSpec(CodeOf(c));
  }

  /** Strings that are not in the table, among them the empty one and six dots, decode to '?'. */
  lemma UnlistedCodes()
    ensures Lookup("") == Unknown
    ensures Lookup("......") == Unknown
    ensures Lookup("-.-.-.") == Unknown
  {
    CodesAreMarks();
    LookupFromMissing("", 0);
    assert |"......"| == 6;
    LookupFromMissing("......", 0);
    assert |"-.-.-."| == 6;
    LookupFromMissing("-.-.-.", 0);
  }
}
