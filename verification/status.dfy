/**
 * The status line (src/app/status.rs): one cell holding a hover message, a
 * persistent message or nothing. A hover message takes precedence: a
 * persistent message never replaces it, and only the widget that set it
 * clears it.
 */
module StatusLine {
  import opened Wrappers

  type WidgetId = nat

  datatype Message = Message(content: string, id: WidgetId)

  datatype Status = Hover(msg: Message) | Persistent(msg: Message) | None

  class StatusCell {
    var status: Status

    constructor ()
      ensures status == Status.None
    {
      status := Status.None;
    }

    /**
     * `set_on_hover`: a hovered widget shows its message as a hover; a widget
     * no longer hovered clears only a hover it set itself.
     */
    method SetOnHover(hovered: bool, id: WidgetId, content: string)
      modifies this
      ensures hovered ==> status == Hover(Message(content, id))
      ensures !hovered && old(status).Hover? && old(status).msg.id == id ==> status == Status.None
      ensures !hovered && !(old(status).Hover? && old(status).msg.id == id) ==> status == old(status)
    {
      if hovered {
        status := Hover(Message(content, id));
      } else if status.Hover? && status.msg.id == id {
        status := Status.None;
      }
    }

    /** `set`: a persistent message, written only when no hover is shown. */
    method Set(id: WidgetId, content: string)
      modifies this
      ensures old(status).Hover? ==> status == old(status)
      ensures !old(status).Hover? ==> status == Persistent(Message(content, id))
    {
      if !status.Hover? {
        status := Persistent(Message(content, id));
      }
    }

    /** `clear`: removes a persistent message; a hover or nothing is left alone. */
    method Clear()
      modifies this
      ensures old(status).Persistent? ==> status == Status.None
      ensures !old(status).Persistent? ==> status == old(status)
      ensures !status.Persistent?
    {
      if status.Persistent? {
        status := Status.None;
      }
    }

    /** `get`: the message shown, of either kind. */
    function Get(): (r: Option<Message>)
      reads this
      ensures r.Some? <==> !status.None?
      ensures r.Some? ==> r.value == status.msg
    {
      match status
        case Hover(msg) => Some(msg)
        case Persistent(msg) => Some(msg)
        case None => Option.None
    }
  }

  /** A hover set by one widget survives any persistent message and any clear. */
  method HoverPrecedence(cell: StatusCell, id: WidgetId, content: string, other: WidgetId, text: string)
    modifies cell
    ensures cell.Get() == Some(Message(content, id))
  {
    cell.SetOnHover(true, id, content);
    cell.Set(other, text);
    cell.Clear();
  }
}
