/** The data the library harness planner works on. */
module HarnessModel {
  import opened Options
  import opened Text

  /** One parameter or return value; `solidityType` is rendered source text. */
  datatype LibParam = LibParam(name: string, solidityType: string, location: string) {
    predicate IsStorage() {
      location == "storage"
    }

    predicate IsReference() {
      location == "storage" || location == "memory" || location == "calldata"
    }
  }

  datatype LibFunction = LibFunction(
    name: string,
    stateMutability: string,
    params: seq<LibParam>,
    results: seq<LibParam>)
  {
    function StorageParams(): seq<LibParam> {
      StorageOnly(params)
    }
  }

  function StorageOnly(ps: seq<LibParam>): seq<LibParam> {
    if ps == [] then []
    else (if ps[0].IsStorage() then [ps[0]] else []) + StorageOnly(ps[1..])
  }

  /** One public function of the harness; `callArgs` are wrapper parameters or owned variables. */
  datatype Wrapper = Wrapper(
    name: string,
    libraryFunction: string,
    params: seq<LibParam>,
    results: seq<LibParam>,
    stateMutability: string,
    callArgs: seq<string>,
    returnsMutatedParam: Option<string>)

  /** Replaces every run of non-alphanumeric characters by one underscore. */
  function Collapse(s: string, inRun: bool): string {
    if s == "" then ""
    else if IsAlnum(s[0]) then [s[0]] + Collapse(s[1..], false)
    else (if inRun then "" else "_") + Collapse(s[1..], true)
  }

  function StripLeft(s: string): string {
    if s != "" && s[0] == '_' then StripLeft(s[1..]) else s
  }

  function StripRight(s: string): string {
    if s != "" && s[|s| - 1] == '_' then StripRight(s[..|s| - 1]) else s
  }

  function SanitizeIdentifier(s: string): string {
    StripRight(StripLeft(Collapse(s, false)))
  }

  /** How a type appears inside generated names; types of the library itself lose its name. */
  function ShortTypeName(solidityType: string, libraryName: string): string {
    var prefix := libraryName + ".";
    SanitizeIdentifier(if prefix <= solidityType then solidityType[|prefix|..] else solidityType)
  }

  function ShortTypeNames(ps: seq<LibParam>, libraryName: string): seq<string> {
    seq(|ps|, i requires 0 <= i < |ps| => ShortTypeName(ps[i].solidityType, libraryName))
  }
}
