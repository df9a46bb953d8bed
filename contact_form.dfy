/**
 * The contact form's state: three text fields, overwritten one at a time as the user
 * types and cleared when the form is submitted.
 */
module Contact {
  import opened Wrappers

  /** The three inputs of the form. */
  datatype Field = Name | Email | Message

  /** The DOM id of each input, which is also the name of the state property it edits. */
  function FieldId(f: Field): string {
    match f
    case Name => "name"
    case Email => "email"
    case Message => "message"
  }

  /** The ids of the inputs the form renders, and so the only ids a change event can carry. */
  const InputIds: seq<string> := ["name", "email", "message"]

  /** The field an event target's `id` designates. */
  function FieldOfId(id: string): (f: Option<Field>)
    ensures f.Some? <==> id in InputIds
    ensures f.Some? ==> FieldId(f.value) == id
  {
    if id == "name" then Some(Name)
    else if id == "email" then Some(Email)
    else if id == "message" then Some(Message)
    else None
  }

  lemma FieldIdRoundTrip(f: Field)
    ensures FieldId(f) in InputIds && FieldOfId(FieldId(f)) == Some(f)
  {
  }

  /** The `formData` state object. */
  datatype FormData = FormData(name: string, email: string, message: string) {

    function Get(f: Field): string {
      match f
      case Name => name
      case Email => email
      case Message => message
    }

    /** `{ ...this, [FieldId(f)]: value }`. */
    function With(f: Field, value: string): (r: FormData)
      ensures r.Get(f) == value
      ensures forall g :: g != f ==> r.Get(g) == Get(g)
    {
      match f
      case Name => this.(name := value)
      case Email => this.(email := value)
      case Message => this.(message := value)
    }
  }

  /** The state the form starts in and is reset to. */
  const EmptyForm: FormData := FormData("", "", "")

  /** Of two changes to the same field, the last one wins. */
  lemma WithLastWins(d: FormData, f: Field, first: string, second: string)
    ensures d.With(f, first).With(f, second) == d.With(f, second)
  {
  }

  /** Changes to different fields commute. */
  lemma WithCommutes(d: FormData, f: Field, g: Field, u: string, v: string)
    requires f != g
    ensures d.With(f, u).With(g, v) == d.With(g, v).With(f, u)
  {
  }

  // ---------------------------------------------------------------------------
  // The form as a state machine over its two handlers
  // ---------------------------------------------------------------------------

  /** The events the form reacts to: a change of one input, or a submission. */
  datatype Event = Change(field: Field, value: string) | Submit

  /** The state after one event. A submission clears the form, whatever it held. */
  function Step(d: FormData, e: Event): (r: FormData)
    ensures e.Change? ==> r.Get(e.field) == e.value
    ensures e.Change? ==> forall g :: g != e.field ==> r.Get(g) == d.Get(g)
    ensures e.Submit? ==> forall g :: r.Get(g) == ""
  {
    match e
    case Change(f, v) => d.With(f, v)
    case Submit => EmptyForm
  }

  /** The state after a sequence of events, applied first to last. */
  function Run(d: FormData, events: seq<Event>): FormData
    decreases |events|
  {
    if events == [] then d else Run(Step(d, events[0]), events[1..])
  }

  /** Submitting twice leaves the same state as submitting once, from any state. */
  lemma SubmitIdempotent(d: FormData, d': FormData)
    ensures Step(Step(d, Submit), Submit) == Step(d, Submit) == Step(d', Submit) == EmptyForm
  {
  }

  lemma {:induction false} RunAppend(d: FormData, events: seq<Event>, e: Event)
    ensures Run(d, events + [e]) == Step(Run(d, events), e)
    decreases |events|
  {
    if events != [] {
      assert (events + [e])[0] == events[0] && (events + [e])[1..] == events[1..] + [e];
      RunAppend(Step(d, events[0]), events[1..], e);
    }
  }

  /** What a field shows after some events, read from the last event back: the last value typed into it since the last submission, or `""`. */
  function Shown(events: seq<Event>, f: Field): string
    decreases |events|
  {
    if events == [] then ""
    else
      match events[|events| - 1]
      case Submit => ""
      case Change(g, v) => if g == f then v else Shown(events[..|events| - 1], f)
  }

  /** Starting from the empty form, every field holds the last value typed into it since the last submission. */
  lemma {:induction false} RunShowsLastChange(events: seq<Event>, f: Field)
    ensures Run(EmptyForm, events).Get(f) == Shown(events, f)
    decreases |events|
  {
    if events != [] {
      var init := events[..|events| - 1];
      assert events == init + [events[|events| - 1]];
      RunAppend(EmptyForm, init, events[|events| - 1]);
      RunShowsLastChange(init, f);
    }
  }

  // ---------------------------------------------------------------------------
  // The component
  // ---------------------------------------------------------------------------

  /** The `ContactForm` component with its `formData` state. */
  class ContactForm {
    var name: string
    var email: string
    var message: string

    function Data(): FormData
      reads this
    {
      FormData(name, email, message)
    }

    /** The initial state: all three fields empty. */
    constructor ()
      ensures Data() == EmptyForm
    {
      name, email, message := "", "", "";
    }

    /** `handleChange`: the input whose id is `id` now holds `value`; the other two are unchanged. */
    method HandleChange(id: string, value: string)
      requires id in InputIds
      modifies this
      ensures Data() == Step(old(Data()), Change(FieldOfId(id).value, value))
      ensures id == "name" ==> name == value && email == old(email) && message == old(message)
      ensures id == "email" ==> email == value && name == old(name) && message == old(message)
      ensures id == "message" ==> message == value && name == old(name) && email == old(email)
    {
      if id == "name" {
        name := value;
      } else if id == "email" {
        email := value;
      } else {
        message := value;
      }
    }

    /**
     * `handleSubmit`: hands over what was entered (the source only logs it) and resets
     * every field to empty, whatever it held.
     */
    method HandleSubmit() returns (submitted: FormData)
      modifies this
      ensures submitted == old(Data())
      ensures Data() == Step(old(Data()), Submit) && Data() == EmptyForm
    {
      submitted := Data();
      name, email, message := "", "", "";
    }
  }
}
