/** Symbol and property records (`struct symbol`, `struct property`) as far as evaluation and checking read them. */
module SymbolTable {
  import opened Common
  import opened Expressions
  import opened Comparison

  datatype PropertyType =
    | PromptProp | CommentProp | MenuProp | DefaultProp | ChoiceProp | DeselectProp | SelectProp | RangeProp | ResetProp

  /** `text` says whether the property has a prompt text. */
  datatype Property = Property(ty: PropertyType, text: bool, visible: Option<Expr>, expr: Option<Expr>)

  datatype SymbolDef = SymbolDef(
    name: string, ty: SymbolType, choice: bool, props: seq<Property>, revDep: Option<Expr>, revDepInv: Option<Expr>)

  predicate Mentions(e: Option<Expr>, s: Symbol) { e.Some? && ContainsSymbol(e.value, s) }

  /** A symbol used in an expression is a constant or an entry of the table under its own type. */
  predicate Known(defs: seq<SymbolDef>, s: Symbol) {
    s.Config? ==> s.id < |defs| && s.ty == defs[s.id].ty
  }
}
