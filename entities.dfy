/** The todo record, the two input payloads and their validation rules. */
module Entities {

  /** A signed 32-bit integer, the type of a todo's id. */
  newtype int32 = x: int | -0x8000_0000 <= x < 0x8000_0000

  /** The largest value an `int32` can hold. */
  const MaxInt32: int := 0x7FFF_FFFF

  datatype Option<T> = None | Some(value: T) {
    /** The wrapped value, or `default` when there is none. */
    function UnwrapOr(default: T): T {
      match this
      case Some(x) => x
      case None => default
    }
  }

  /** One todo item. */
  datatype Todo = Todo(id: int32, text: string, completed: bool)

  /** A new item carries the given id and text and is not completed yet. */
  function NewTodo(id: int32, text: string): (t: Todo)
    ensures t.id == id && t.text == text
    ensures !t.completed
  {
    Todo(id, text, false)
  }

  /** The payload of a create request. */
  datatype CreateTodo = CreateTodo(text: string)

  /** The payload of an update request: each field may be left out. */
  datatype UpdateTodo = UpdateTodo(text: Option<string>, completed: Option<bool>)

  const MinTextLength: nat := 1
  const MaxTextLength: nat := 100
  const EmptyMessage: string := "Can not be empty"
  const OverLengthMessage: string := "Over text length"

  /** Text that both length rules accept. Length counts characters. */
  predicate ValidText(text: string) {
    MinTextLength <= |text| <= MaxTextLength
  }

  /**
   * The messages of the length rules that `text` breaks, in the order the
   * rules are declared; the empty sequence means the text is accepted.
   */
  function TextErrors(text: string): (errors: seq<string>)
    ensures errors == [] <==> ValidText(text)
    ensures |text| == 0 ==> errors == [EmptyMessage]
    ensures |text| > MaxTextLength ==> errors == [OverLengthMessage]
    ensures |errors| <= 1
  {
    (if |text| < MinTextLength then [EmptyMessage] else [])
    + (if |text| > MaxTextLength then [OverLengthMessage] else [])
  }

  /** Validation of a create payload: its text must obey both length rules. */
  function ValidateCreate(payload: CreateTodo): (errors: seq<string>)
    ensures errors == [] <==> ValidText(payload.text)
    ensures |payload.text| == 0 ==> errors == [EmptyMessage]
    ensures |payload.text| > MaxTextLength ==> errors == [OverLengthMessage]
  {
    TextErrors(payload.text)
  }

  /**
   * Validation of an update payload: the rules apply to the text only when
   * it is present; the completed flag has no rule.
   */
  function ValidateUpdate(payload: UpdateTodo): (errors: seq<string>)
    ensures payload.text.None? ==> errors == []
    ensures payload.text.Some? ==> (errors == [] <==> ValidText(payload.text.value))
    ensures payload.text == Some([]) ==> errors == [EmptyMessage]
    ensures payload.text.Some? && |payload.text.value| > MaxTextLength ==> errors == [OverLengthMessage]
  {
    match payload.text
    case None => []
    case Some(text) => TextErrors(text)
  }
}
