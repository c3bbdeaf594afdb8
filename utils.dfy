/**
 * The closed lookup table from the compiler's completion-kind names to the
 * editor's completion item kinds (client/src/utils.ts; the same table is
 * repeated word for word in client/src/features/completion-item.ts).
 */
module Utils {
  import opened Wrappers

  datatype CompletionItemKind =
    | Class | Color | Constant | Constructor | Enum | EnumMember | Event | Field | File
    | Folder | Function | Interface | Issue | Keyword | Method | Module | Operator
    | Property | Reference | Snippet | Struct | Text | TypeParameter | Unit | User
    | Value | Variable

  /** The name the compiler uses for each kind. */
  function CompletionItemKindName(k: CompletionItemKind): string
  {
    match k
    case Class => "class"
    case Color => "color"
    case Constant => "constant"
    case Constructor => "constructor"
    case Enum => "enum"
    case EnumMember => "enum-member"
    case Event => "event"
    case Field => "field"
    case File => "file"
    case Folder => "folder"
    case Function => "function"
    case Interface => "interface"
    case Issue => "issue"
    case Keyword => "keyword"
    case Method => "method"
    case Module => "module"
    case Operator => "operator"
    case Property => "property"
    case Reference => "reference"
    case Snippet => "snippet"
    case Struct => "struct"
    case Text => "text"
    case TypeParameter => "type-parameter"
    case Unit => "unit"
    case User => "user"
    case Value => "value"
    case Variable => "variable"
  }

  /** `stringToCompletionItemKind`: the switch over the 27 names; anything
      else gives null. */
  function StringToCompletionItemKind(value: string): Option<CompletionItemKind>
  {
    match value
    case "class" => Some(Class)
    case "color" => Some(Color)
    case "constant" => Some(Constant)
    case "constructor" => Some(Constructor)
    case "enum" => Some(Enum)
    case "enum-member" => Some(EnumMember)
    case "event" => Some(Event)
    case "field" => Some(Field)
    case "file" => Some(File)
    case "folder" => Some(Folder)
    case "function" => Some(Function)
    case "interface" => Some(Interface)
    case "issue" => Some(Issue)
    case "keyword" => Some(Keyword)
    case "method" => Some(Method)
    case "module" => Some(Module)
    case "operator" => Some(Operator)
    case "property" => Some(Property)
    case "reference" => Some(Reference)
    case "snippet" => Some(Snippet)
    case "struct" => Some(Struct)
    case "text" => Some(Text)
    case "type-parameter" => Some(TypeParameter)
    case "unit" => Some(Unit)
    case "user" => Some(User)
    case "value" => Some(Value)
    case "variable" => Some(Variable)
    case _ => None
  }

  /** A result is always the kind the string names, so anything that is
      not a name (a differently cased one included) gives null. */
  lemma StringToCompletionItemKindName(value: string)
    ensures var r := StringToCompletionItemKind(value);
      r.Some? ==> CompletionItemKindName(r.value) == value
  {
  }

  /** The name of every kind gives that kind back; with the lemma above,
      distinct names give distinct kinds. */
  lemma StringToCompletionItemKindOfName(k: CompletionItemKind)
    ensures StringToCompletionItemKind(CompletionItemKindName(k)) == Some(k)
  {
    match k
    case Class =>
    case Color =>
    case Constant =>
    case Constructor =>
    case Enum =>
    case EnumMember =>
    case Event =>
    case Field =>
    case File =>
    case Folder =>
    case Function =>
    case Interface =>
    case Issue =>
    case Keyword =>
    case Method =>
    case Module =>
    case Operator =>
    case Property =>
    case Reference =>
    case Snippet =>
    case Struct =>
    case Text =>
    case TypeParameter =>
    case Unit =>
    case User =>
    case Value =>
    case Variable =>
  }
}
