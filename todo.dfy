/**
 The to-do record: its default attributes, the coercion of missing or empty
 content at construction, and the field updates that toggling, editing and
 marking everything complete perform on it.
 */
module TodoModel {
  import opened Wrappers

  /** The content a record receives when it is constructed without any. */
  const DefaultContent: string := "empty todo..."

  /** One to-do record. `order` is its display position within the list. */
  datatype Todo = Todo(content: string, done: bool, order: int)

  /**
   The attributes handed to the record's constructor. An absent (or null)
   content or done flag is None; `order` is always supplied by the list.
   */
  datatype Attributes = Attributes(content: Option<string>, done: Option<bool>, order: int)

  /** JavaScript truthiness of the content attribute: present and non-empty. */
  predicate HasContent(content: Option<string>)
  {
    content.Some? && content.value != ""
  }

  /**
   Construction: the defaults are applied to the absent attributes, and then
   a content that is still falsy is replaced by the default content.
   */
  function Initialize(attrs: Attributes): (t: Todo)
    ensures t.content != ""
    ensures HasContent(attrs.content) ==> t.content == attrs.content.value
    ensures !HasContent(attrs.content) ==> t.content == DefaultContent
    ensures t.done <==> attrs.done == Some(true)
    ensures t.order == attrs.order
  {
    var content := if HasContent(attrs.content) then attrs.content.value else DefaultContent;
    var done := match attrs.done
      case Some(d) => d
      case None => false;
    Todo(content, done, attrs.order)
  }

  /** The attributes that describe a record completely. */
  function AttributesOf(t: Todo): Attributes
  {
    Attributes(Some(t.content), Some(t.done), t.order)
  }

  /** Constructing from a record's own attributes gives it back, unless its content is empty. */
  lemma InitializeRoundTrip(t: Todo)
    ensures Initialize(AttributesOf(t)) == t <==> t.content != ""
  {
  }

  /** `toggle`: the completion flag is negated. */
  function Toggled(t: Todo): (r: Todo)
    ensures r.done == !t.done
    ensures r.content == t.content && r.order == t.order
  {
    t.(done := !t.done)
  }

  /** Toggling twice restores the original record. */
  lemma ToggleTwice(t: Todo)
    ensures Toggled(Toggled(t)) == t
    ensures Toggled(t) != t
  {
  }

  /**
   The content edit of the item view's `close`: the new text is stored as it
   is, the empty string included; the default is not applied again.
   */
  function WithContent(t: Todo, content: string): (r: Todo)
    ensures r.content == content
    ensures r.done == t.done && r.order == t.order
  {
    t.(content := content)
  }

  /** Saving `done` on one record, as marking everything complete does. */
  function WithDone(t: Todo, flag: bool): (r: Todo)
    ensures r.done == flag
    ensures r.content == t.content && r.order == t.order
  {
    t.(done := flag)
  }

  /**
   Construction and editing treat the empty string differently: the first
   replaces it by the default, the second keeps it.
   */
  lemma EmptyContentAsymmetry(t: Todo, done: Option<bool>, order: int)
    ensures Initialize(Attributes(Some(""), done, order)).content == DefaultContent
    ensures Initialize(Attributes(None, done, order)).content == DefaultContent
    ensures WithContent(t, "").content == ""
  {
  }
}
