/**
 * The post-processing of `COBOLAnalyzer` (cobol_analyzer.py): what the extraction steps do
 * with the names their patterns matched, the `ProgramInfo` record they fill in, and the
 * summary `export_json` builds from it. The matches themselves are inputs: in the source they
 * come from `re.search`/`re.findall` over the file contents.
 */
module CobolAnalyzer {
  import opened Wrappers
  import opened Collections
  import opened Strings

  /** The names `_extract_procedures` drops (line 74), compared in upper case. */
  const Keywords: set<string> := {"PROGRAM-ID", "AUTHOR", "DATE-WRITTEN", "ENVIRONMENT", "DATA",
                                  "PROCEDURE", "WORKING-STORAGE", "FILE", "SECTION"}

  /** At most this many procedure names are kept (line 76). */
  const MaxProcedures := 20

  /** `_extract_program_id` (lines 50-52): the name captured by the first match, if any. */
  function ExtractProgramId(matches: seq<string>): (r: Option<string>)
    ensures r.None? <==> |matches| == 0
    ensures r.Some? ==> r.value == matches[0]
  {
    if |matches| == 0 then None else Some(matches[0])
  }

  /**
   * `list(set(matches))` (lines 59 and 66): the same names, each once. Python does not fix
   * the order of the result; this one keeps first occurrences, and the contract promises no
   * order.
   */
  function Dedup(matches: seq<string>): (r: seq<string>)
    ensures Distinct(r)
    ensures forall x :: x in r <==> x in matches
    ensures |r| == |Elements(matches)|
    decreases |matches|
  {
    if matches == [] then []
    else
      var init := matches[..|matches| - 1];
      var last := matches[|matches| - 1];
      var r := Dedup(init) + if last in init then [] else [last];
      assert forall x :: x in matches <==> x in init || x == last;
      assert Distinct(r) by {
        DistinctConcat(Dedup(init), if last in init then [] else [last]);
      }
      assert Elements(r) == Elements(matches);
      ElementsCardinality(r);
      r
  }

  predicate IsKeyword(name: string) {
    Upper(name) in Keywords
  }

  /** The comprehension of line 75: the matches that are not keywords, in order. */
  function NonKeywords(matches: seq<string>): (r: seq<string>)
    ensures forall x :: x in r <==> x in matches && !IsKeyword(x)
    ensures |r| <= |matches|
    decreases |matches|
  {
    if matches == [] then []
    else
      var init := matches[..|matches| - 1];
      var last := matches[|matches| - 1];
      assert forall x :: x in matches <==> x in init || x == last;
      NonKeywords(init) + if IsKeyword(last) then [] else [last]
  }

  /**
   * `_extract_procedures` after the match (lines 74-76): distinct non-keyword matches, at
   * most twenty of them; when fewer than twenty are kept, every non-keyword match is kept.
   */
  function ExtractProcedures(matches: seq<string>): (r: seq<string>)
    ensures |r| <= MaxProcedures
    ensures Distinct(r)
    ensures forall x :: x in r ==> x in matches && !IsKeyword(x)
    ensures var found := set x | x in matches && !IsKeyword(x);
      |r| == if |found| < MaxProcedures then |found| else MaxProcedures
    ensures |r| < MaxProcedures ==> forall x :: x in matches && !IsKeyword(x) ==> x in r
  {
    var unique := Dedup(NonKeywords(matches));
    assert Elements(NonKeywords(matches)) == set x | x in matches && !IsKeyword(x);
    var r := if |unique| <= MaxProcedures then unique else unique[..MaxProcedures];
    assert forall x :: x in r ==> x in unique;
    r
  }

  /** A procedure name is never a keyword, in whatever case it was written. */
  lemma ProceduresAreNotKeywords(matches: seq<string>, name: string)
    requires name in ExtractProcedures(matches)
    ensures Upper(name) !in Keywords
    ensures forall k :: k in Keywords ==> Upper(name) != Upper(k)
  {
    forall k | k in Keywords
      ensures Upper(name) != Upper(k)
    {
      KeywordsAreUpper(k);
    }
  }

  /** The keywords are written in upper case already. */
  lemma KeywordsAreUpper(k: string)
    requires k in Keywords
    ensures Upper(k) == k
  {
    assert forall i :: 0 <= i < |k| ==> !('a' <= k[i] <= 'z');
  }

  /** The record of one analysed file (lines 15-27). */
  class ProgramInfo {
    var programId: Option<string>
    var filePath: string
    var calls: seq<string>
    var filesUsed: seq<string>
    var procedures: seq<string>

    /** The dataclass constructor with `__post_init__` (lines 24-27): a missing list becomes empty. */
    constructor (programId: Option<string>, filePath: string, calls: Option<seq<string>>,
                 filesUsed: Option<seq<string>>, procedures: Option<seq<string>>)
      ensures this.programId == programId && this.filePath == filePath
      ensures this.calls == (if calls.Some? then calls.value else [])
      ensures this.filesUsed == (if filesUsed.Some? then filesUsed.value else [])
      ensures this.procedures == (if procedures.Some? then procedures.value else [])
    {
      this.programId := programId;
      this.filePath := filePath;
      this.calls := calls.GetOr([]);
      this.filesUsed := filesUsed.GetOr([]);
      this.procedures := procedures.GetOr([]);
    }
  }

  /** The `statistics` part and the sorted lists of the dictionary `export_json` writes. */
  datatype Summary = Summary(file: string, programId: Option<string>, calls: seq<string>,
                             files: seq<string>, procedures: seq<string>, totalCalls: nat,
                             totalFiles: nat, totalProcedures: nat)

  /** `COBOLAnalyzer` with the file contents replaced by the matches its patterns produce. */
  class Analyzer {
    const filePath: string
    const info: ProgramInfo

    /** Line 36: a fresh record holding only the path. */
    constructor (filePath: string)
      ensures this.filePath == filePath && fresh(info)
      ensures info.programId.None? && info.filePath == filePath
      ensures info.calls == [] && info.filesUsed == [] && info.procedures == []
    {
      this.filePath := filePath;
      info := new ProgramInfo(None, filePath, None, None, None);
    }

    /**
     * `analyze` (lines 82-87): sets the four extracted fields on the analyser's own record,
     * leaves its path alone, and returns that same record.
     */
    method Analyze(idMatches: seq<string>, callMatches: seq<string>, fileMatches: seq<string>,
                   paragraphMatches: seq<string>) returns (r: ProgramInfo)
      modifies info
      ensures r == info && info.filePath == old(info.filePath)
      ensures info.programId == ExtractProgramId(idMatches)
      ensures info.calls == Dedup(callMatches)
      ensures info.filesUsed == Dedup(fileMatches)
      ensures info.procedures == ExtractProcedures(paragraphMatches)
    {
      info.programId := ExtractProgramId(idMatches);
      info.calls := Dedup(callMatches);
      info.filesUsed := Dedup(fileMatches);
      info.procedures := ExtractProcedures(paragraphMatches);
      r := info;
    }

    /**
     * The dictionary of `export_json` (lines 127-137): each list sorted, holding exactly the
     * record's entries, and each total the length of its list.
     */
    method ExportJson() returns (data: Summary)
      ensures data.file == info.filePath && data.programId == info.programId
      ensures Sorted(data.calls) && multiset(data.calls) == multiset(info.calls)
      ensures Sorted(data.files) && multiset(data.files) == multiset(info.filesUsed)
      ensures Sorted(data.procedures) && multiset(data.procedures) == multiset(info.procedures)
      ensures data.totalCalls == |info.calls| == |data.calls|
      ensures data.totalFiles == |info.filesUsed| == |data.files|
      ensures data.totalProcedures == |info.procedures| == |data.procedures|
    {
      var calls := Sort(info.calls);
      var files := Sort(info.filesUsed);
      var procedures := Sort(info.procedures);
      assert |calls| == |multiset(calls)| == |multiset(info.calls)| == |info.calls|;
      assert |files| == |multiset(files)| == |multiset(info.filesUsed)| == |info.filesUsed|;
      assert |procedures| == |multiset(procedures)| == |multiset(info.procedures)| == |info.procedures|;
      data := Summary(info.filePath, info.programId, calls, files, procedures,
                      |info.calls|, |info.filesUsed|, |info.procedures|);
    }
  }
}
