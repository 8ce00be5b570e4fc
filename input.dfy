/** interface/cli/input.go: the input of the init command and its validation. */
module Cli {
  import opened Errors

  /** The values the init command collects. */
  datatype InitInput = InitInput(name: string, templateType: string, outputDir: string)

  const NameRequired := "project name is required"

  /** Validate: an error exactly when the name is empty; no other field is looked at. */
  function Validate(input: InitInput): (r: Option<Error>)
    ensures r.Some? <==> input.name == ""
    ensures r.Some? ==> r.value == Message(NameRequired)
  {
    if input.name == "" then Some(Message(NameRequired)) else None
  }

  /** The template type and the output directory never affect the verdict, empty or not. */
  lemma ValidateIgnoresOtherFields(input: InitInput, templateType: string, outputDir: string)
    ensures Validate(input.(templateType := templateType, outputDir := outputDir)) == Validate(input)
  {
  }

  /** Only the empty name is refused: a name of blanks passes. */
  lemma BlankNamePasses(input: InitInput)
    requires |input.name| > 0
    requires forall k :: 0 <= k < |input.name| ==> input.name[k] in {' ', '\t', '\n'}
    ensures Validate(input) == None
  {
  }
}
