/** `read_file`: picks the parser for an uploaded file by its name. */
module Loader {

  /** `pd.read_csv` or `pd.read_excel`. */
  datatype Parser = CsvParser | SpreadsheetParser

  /** Python's `str.endswith`, case-sensitive. */
  predicate EndsWith(s: string, suffix: string)
    ensures EndsWith(s, suffix) <==>
              |suffix| <= |s| && forall k :: 0 <= k < |suffix| ==> s[|s| - |suffix| + k] == suffix[k]
  {
    |suffix| <= |s| && s[|s| - |suffix|..] == suffix
  }

  /** The parser `read_file` hands the file to. */
  function ParserFor(fileName: string): (p: Parser)
    ensures p == CsvParser <==> |fileName| >= 4 && fileName == fileName[..|fileName| - 4] + ".csv"
  {
    if EndsWith(fileName, ".csv") then CsvParser else SpreadsheetParser
  }

  /** `read_file`, with the two foreign parsers as parameters: the CSV parser
      for a name ending in ".csv", the spreadsheet parser otherwise. */
  function ReadFile<T>(fileName: string, content: seq<bv8>, readCsv: seq<bv8> -> T, readExcel: seq<bv8> -> T): (t: T)
    ensures ParserFor(fileName) == CsvParser ==> t == readCsv(content)
    ensures ParserFor(fileName) == SpreadsheetParser ==> t == readExcel(content)
  {
    match ParserFor(fileName)
    case CsvParser => readCsv(content)
    case SpreadsheetParser => readExcel(content)
  }

  /** Any name made of a stem and ".csv" goes to the CSV parser. */
  lemma CsvSuffixChoosesCsv(stem: string)
    ensures ParserFor(stem + ".csv") == CsvParser
  {
    var name := stem + ".csv";
    assert name[|name| - 4..] == ".csv";
  }

  /** Only names made of a stem and ".csv" go to the CSV parser. */
  lemma CsvChoiceHasCsvSuffix(fileName: string)
    requires ParserFor(fileName) == CsvParser
    ensures |fileName| >= 4 && fileName == fileName[..|fileName| - 4] + ".csv"
  {
    assert fileName == fileName[..|fileName| - 4] + fileName[|fileName| - 4..];
  }

  /** The test is case-sensitive and looks only at the end of the name. */
  lemma ParserExamples()
    ensures ParserFor("data.csv") == CsvParser
    ensures ParserFor(".csv") == CsvParser
    ensures ParserFor("data.CSV") == SpreadsheetParser
    ensures ParserFor("data.xlsx") == SpreadsheetParser
    ensures ParserFor("data.csv.xlsx") == SpreadsheetParser
    ensures ParserFor("csv") == SpreadsheetParser
  {
    CsvSuffixChoosesCsv("data");
    CsvSuffixChoosesCsv("");
    assert "data.CSV"[4..] != ".csv" by { assert "data.CSV"[4..][1] == 'C'; }
    assert "data.xlsx"[5..] != ".csv" by { assert "data.xlsx"[5..][0] == 'x'; }
    assert "data.csv.xlsx"[9..] != ".csv" by { assert "data.csv.xlsx"[9..][0] == 'x'; }
  }
}
