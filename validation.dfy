/**
 * The argument checks every exporter runs before it writes anything:
 * the report data must have the expected type, the output file name must
 * be a non-empty string, and the template must be acceptable to the
 * format. The checks run in that order and the first failure raises.
 */
module Validation {
  import opened Entities

  /** The seven exporters, by report type and output format. */
  datatype Exporter =
    | ExcelByVuln | WordByVuln | CsvByVuln
    | WordByHost | ExcelByHost | CsvByHost
    | CsvSummary

  /** An argument value, by the Python type the checks look at. A host
      registry is a mapping, kept as its entries in iteration order. */
  datatype Arg =
    | ListArg(items: seq<Arg>)
    | VulnArg(v: Vulnerability)
    | TreeArg(entries: seq<Entry>)
    | HostArg
    | StrArg(s: string)
    | NoneArg
    | OtherArg

  datatype Entry = Entry(key: Arg, value: Arg)

  predicate ByVuln(e: Exporter)
  {
    e == ExcelByVuln || e == WordByVuln || e == CsvByVuln || e == CsvSummary
  }

  // ---------------------------------------------------------------
  // The loops over the report data
  // ---------------------------------------------------------------

  /** `for x in items: if not isinstance(x, Vulnerability): raise TypeError`. */
  function CheckVulns(items: seq<Arg>): (r: Outcome<()>)
    ensures r.Raised? ==> r.error == TypeError
    decreases |items|
  {
    if items == [] then Ok(())
    else if !items[0].VulnArg? then Raised(TypeError)
    else CheckVulns(items[1..])
  }

  /** The loop accepts exactly the lists whose every element is a vulnerability. */
  lemma {:induction false} CheckVulnsSpec(items: seq<Arg>)
    ensures CheckVulns(items).Ok? <==> forall i :: 0 <= i < |items| ==> items[i].VulnArg?
    decreases |items|
  {
    if items != [] {
      CheckVulnsSpec(items[1..]);
      assert forall i :: 1 <= i < |items| ==> items[i] == items[1..][i - 1];
    }
  }

  /** `for key in tree.keys(): if not isinstance(tree[key], Host): raise TypeError`. */
  function CheckHostValues(entries: seq<Entry>): (r: Outcome<()>)
    ensures r.Raised? ==> r.error == TypeError
    decreases |entries|
  {
    if entries == [] then Ok(())
    else if !entries[0].value.HostArg? then Raised(TypeError)
    else CheckHostValues(entries[1..])
  }

  lemma {:induction false} CheckHostValuesSpec(entries: seq<Entry>)
    ensures CheckHostValues(entries).Ok? <==> forall i :: 0 <= i < |entries| ==> entries[i].value.HostArg?
    decreases |entries|
  {
    if entries != [] {
      CheckHostValuesSpec(entries[1..]);
      assert forall i :: 1 <= i < |entries| ==> entries[i] == entries[1..][i - 1];
    }
  }

  /** `for x in tree: if not isinstance(x, Host): raise TypeError`: iterating
      a mapping yields its keys, so this loop looks at the keys. */
  function CheckHostKeys(entries: seq<Entry>): (r: Outcome<()>)
    ensures r.Raised? ==> r.error == TypeError
    decreases |entries|
  {
    if entries == [] then Ok(())
    else if !entries[0].key.HostArg? then Raised(TypeError)
    else CheckHostKeys(entries[1..])
  }

  lemma {:induction false} CheckHostKeysSpec(entries: seq<Entry>)
    ensures CheckHostKeys(entries).Ok? <==> forall i :: 0 <= i < |entries| ==> entries[i].key.HostArg?
    decreases |entries|
  {
    if entries != [] {
      CheckHostKeysSpec(entries[1..]);
      assert forall i :: 1 <= i < |entries| ==> entries[i] == entries[1..][i - 1];
    }
  }

  // ---------------------------------------------------------------
  // The three checks
  // ---------------------------------------------------------------

  /** The check on the report data: a list of vulnerabilities for the
      vulnerability and summary exporters, a host registry whose values
      are hosts for the host exporters. */
  function CheckData(e: Exporter, data: Arg): (r: Outcome<()>)
    ensures r.Raised? ==> r.error == TypeError
  {
    if ByVuln(e) then
      if !data.ListArg? then Raised(TypeError) else CheckVulns(data.items)
    else
      if !data.TreeArg? then Raised(TypeError) else CheckHostValues(data.entries)
  }

  /** The data check as the CSV host exporter writes it: its loop runs over
      the registry's keys instead of its hosts. */
  function CheckDataAsWritten(e: Exporter, data: Arg): (r: Outcome<()>)
    ensures r.Raised? ==> r.error == TypeError
  {
    if e == CsvByHost then
      if !data.TreeArg? then Raised(TypeError) else CheckHostKeys(data.entries)
    else CheckData(e, data)
  }

  /** `output_file` must be a string (`TypeError`) and not empty (`ValueError`). */
  function CheckOutputFile(outputFile: Arg): (r: Outcome<()>)
    ensures r.Ok? <==> outputFile.StrArg? && outputFile.s != ""
    ensures r.Raised? ==> (r.error == ValueError <==> outputFile == StrArg(""))
    ensures r.Raised? ==> r.error in {TypeError, ValueError}
  {
    if !outputFile.StrArg? then Raised(TypeError)
    else if outputFile.s == "" then Raised(ValueError)
    else Ok(())
  }

  /** The template check: the Word exporters take a template path or none;
      the CSV exporters and the Excel host exporter support no template;
      the Excel vulnerability exporter has its check commented out and
      accepts anything. */
  function CheckTemplate(e: Exporter, template: Arg): (r: Outcome<()>)
    ensures r.Raised? ==> r.error in {TypeError, NotImplementedError}
  {
    match e
    case ExcelByVuln => Ok(())
    case WordByVuln | WordByHost =>
      if template.NoneArg? || template.StrArg? then Ok(()) else Raised(TypeError)
    case CsvByVuln | ExcelByHost | CsvByHost | CsvSummary =>
      if template.NoneArg? then Ok(()) else Raised(NotImplementedError)
  }

  /** The three checks in source order; the first failure is raised. */
  function Validate(e: Exporter, data: Arg, template: Arg, outputFile: Arg): Outcome<()>
  {
    Then(Then(CheckData(e, data), CheckOutputFile(outputFile)), CheckTemplate(e, template))
  }

  /** The same, with the CSV host exporter's data check as written. */
  function ValidateAsWritten(e: Exporter, data: Arg, template: Arg, outputFile: Arg): Outcome<()>
  {
    Then(Then(CheckDataAsWritten(e, data), CheckOutputFile(outputFile)), CheckTemplate(e, template))
  }

  /** Run `first`; if it raised, that exception wins, else run `second`. */
  function Then(first: Outcome<()>, second: Outcome<()>): (r: Outcome<()>)
    ensures first.Raised? ==> r == first
    ensures first.Ok? ==> r == second
  {
    if first.Raised? then first else second
  }

  // ---------------------------------------------------------------
  // What the checks accept and which exception wins
  // ---------------------------------------------------------------

  /** Well-formed report data for the exporter. */
  predicate DataOk(e: Exporter, data: Arg)
  {
    if ByVuln(e) then
      data.ListArg? && forall i :: 0 <= i < |data.items| ==> data.items[i].VulnArg?
    else
      data.TreeArg? && forall i :: 0 <= i < |data.entries| ==> data.entries[i].value.HostArg?
  }

  lemma CheckDataSpec(e: Exporter, data: Arg)
    ensures CheckData(e, data).Ok? <==> DataOk(e, data)
  {
    if data.ListArg? {
      CheckVulnsSpec(data.items);
    }
    if data.TreeArg? {
      CheckHostValuesSpec(data.entries);
    }
  }

  /** A template the exporter accepts. */
  predicate TemplateOk(e: Exporter, template: Arg)
  {
    e == ExcelByVuln
    || template.NoneArg?
    || ((e == WordByVuln || e == WordByHost) && template.StrArg?)
  }

  /** Validation passes exactly for well-formed data, a non-empty file
      name and an accepted template. Bad data raises `TypeError` whatever
      the other arguments; an empty file name raises `ValueError` only
      when the data is well formed; `NotImplementedError` is raised only
      when data and file name are both fine and a template is given to an
      exporter that does not support one. */
  lemma ValidateSpec(e: Exporter, data: Arg, template: Arg, outputFile: Arg)
    ensures Validate(e, data, template, outputFile).Ok? <==>
              DataOk(e, data) && outputFile.StrArg? && outputFile.s != "" && TemplateOk(e, template)
    ensures !DataOk(e, data) ==> Validate(e, data, template, outputFile) == Raised(TypeError)
    ensures Validate(e, data, template, outputFile) == Raised(ValueError) <==>
              DataOk(e, data) && outputFile == StrArg("")
    ensures Validate(e, data, template, outputFile) == Raised(NotImplementedError) <==>
              DataOk(e, data) && outputFile.StrArg? && outputFile.s != ""
              && !template.NoneArg? && e in {CsvByVuln, ExcelByHost, CsvByHost, CsvSummary}
  {
    CheckDataSpec(e, data);
  }

  /** The Excel vulnerability exporter ignores its template argument: it
      passes exactly for a list of vulnerabilities and a non-empty name. */
  lemma ExcelByVulnIgnoresTemplate(data: Arg, template: Arg, outputFile: Arg)
    ensures Validate(ExcelByVuln, data, template, outputFile) == Validate(ExcelByVuln, data, NoneArg, outputFile)
    ensures Validate(ExcelByVuln, data, template, outputFile).Ok? <==>
              data.ListArg? && (forall i :: 0 <= i < |data.items| ==> data.items[i].VulnArg?)
              && outputFile.StrArg? && outputFile.s != ""
  {
    CheckDataSpec(ExcelByVuln, data);
  }

  /** The Word exporters take a template path or none: anything else
      raises `TypeError`, once data and file name have passed; they never
      raise `NotImplementedError`. */
  lemma WordValidationSpec(e: Exporter, data: Arg, template: Arg, outputFile: Arg)
    requires e == WordByVuln || e == WordByHost
    ensures Validate(e, data, template, outputFile).Ok? <==>
              DataOk(e, data) && outputFile.StrArg? && outputFile.s != ""
              && (template.NoneArg? || template.StrArg?)
    ensures DataOk(e, data) && outputFile.StrArg? && outputFile.s != ""
            && !template.NoneArg? && !template.StrArg? ==>
              Validate(e, data, template, outputFile) == Raised(TypeError)
    ensures Validate(e, data, template, outputFile) != Raised(NotImplementedError)
  {
    CheckDataSpec(e, data);
  }

  /** The CSV exporters and the Excel host exporter support no template:
      they pass exactly with none, and a template raises
      `NotImplementedError` exactly when data and file name have passed. */
  lemma NoTemplateValidationSpec(e: Exporter, data: Arg, template: Arg, outputFile: Arg)
    requires e in {CsvByVuln, ExcelByHost, CsvByHost, CsvSummary}
    ensures Validate(e, data, template, outputFile).Ok? <==>
              DataOk(e, data) && outputFile.StrArg? && outputFile.s != "" && template.NoneArg?
    ensures Validate(e, data, template, outputFile) == Raised(NotImplementedError) <==>
              DataOk(e, data) && outputFile.StrArg? && outputFile.s != "" && !template.NoneArg?
  {
    CheckDataSpec(e, data);
  }

  /** The host exporters' data check: a registry whose every value is a
      host, the same check for each of them. */
  lemma HostDataSpec(e: Exporter, data: Arg)
    requires !ByVuln(e)
    ensures CheckData(e, data).Ok? <==>
              data.TreeArg? && forall i :: 0 <= i < |data.entries| ==> data.entries[i].value.HostArg?
    ensures CheckData(e, data) == CheckData(WordByHost, data)
  {
    CheckDataSpec(e, data);
  }

  // ---------------------------------------------------------------
  // The CSV host exporter's key loop
  // ---------------------------------------------------------------

  /** A registry keyed by strings, holding one host, is refused by the CSV
      host exporter as written, while the Excel host exporter accepts the
      same arguments. */
  lemma CsvByHostRejectsRegistry()
    ensures var registry := TreeArg([Entry(StrArg("host-1"), HostArg)]);
            ValidateAsWritten(CsvByHost, registry, NoneArg, StrArg("report.csv")) == Raised(TypeError)
            && ValidateAsWritten(ExcelByHost, registry, NoneArg, StrArg("report.csv")) == Ok(())
  {
  }

  /** As written, the CSV host exporter accepts a registry only when every
      key is itself a host, so any non-empty registry keyed by strings is
      refused; every other exporter's data check is the corrected one. */
  lemma CheckDataAsWrittenSpec(e: Exporter, data: Arg)
    ensures CheckDataAsWritten(CsvByHost, data).Ok? <==>
              data.TreeArg? && forall i :: 0 <= i < |data.entries| ==> data.entries[i].key.HostArg?
    ensures e != CsvByHost ==> CheckDataAsWritten(e, data) == CheckData(e, data)
    ensures data.TreeArg? && |data.entries| > 0 && (forall i :: 0 <= i < |data.entries| ==> data.entries[i].key.StrArg?) ==>
              CheckDataAsWritten(CsvByHost, data) == Raised(TypeError)
  {
    if data.TreeArg? {
      CheckHostKeysSpec(data.entries);
    }
  }
}
