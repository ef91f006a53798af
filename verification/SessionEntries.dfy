/** What the entry of one connection says over every run. */
module SessionEntries {
  import opened Bytes
  import opened Sessions

  /** What has happened to a connection since its entry was made: the name it goes by and the
      sessions opened for it. */
  datatype Story = Story(name: Option<Username>, opens: nat)

  const NEW := Story(None, 0)

  predicate Names(story: Story, username: Option<Username>) {
    Label(story.name) == Label(username)
  }

  function NextStory(story: Option<Story>, s: State, step: Step, id: ConnId): Option<Story> {
    var known := if story.Some? then story.value else NEW;
    match step
    case Register(i) => if i == id then Some(known) else story
    case Unregister(i) => if i == id then None else story
    case Open(_, i, username) =>
      if i == id then Some(Story(if username.Some? then username else known.name, known.opens + 1)) else story
    case Relabel(_, i, username) =>
      if i == id && story.Some? && !Names(known, username) then Some(known.(name := username)) else story
    case Drop(i) => if i < |s.guards| && s.guards[i].id == id then None else story
  }

  ghost function StoryAlong(story: Option<Story>, s: State, steps: seq<Step>, id: ConnId): Option<Story>
    requires Possible(s, steps)
    decreases |steps|
  {
    if steps == [] then story
    else StoryAlong(NextStory(story, s, steps[0], id), Apply(s, steps[0]), steps[1..], id)
  }

  /** Calls that can be made, orderly or not. */
  ghost predicate Possible(s: State, steps: seq<Step>)
    decreases |steps|
  {
    steps == [] || (Enabled(s, steps[0]) && Possible(Apply(s, steps[0]), steps[1..]))
  }

  ghost function StateAfter(s: State, steps: seq<Step>): State
    requires Possible(s, steps)
    decreases |steps|
  {
    if steps == [] then s else StateAfter(Apply(s, steps[0]), steps[1..])
  }

  /** The entry tells the story; the count of sessions stays at its largest value. */
  predicate Tells(s: State, id: ConnId, story: Option<Story>) {
    match story
    case None => id !in s.clients
    case Some(t) => id in s.clients && s.clients[id] == ClientInfo(t.name, Min(t.opens, U64_END - 1))
  }

  lemma StepTells(s: State, step: Step, id: ConnId, story: Option<Story>)
    requires Tells(s, id, story) && Enabled(s, step)
    ensures Tells(Apply(s, step), id, NextStory(story, s, step, id))
  {
  }

  /** Over every run, a connection has an entry exactly since it was registered or a session
      was opened for it and it was neither unregistered nor a session of it ended. The entry
      carries the last name that was given to it and the number of sessions opened. */
  lemma {:induction false} EntryTold(s: State, steps: seq<Step>, id: ConnId, story: Option<Story>)
    requires Tells(s, id, story) && Possible(s, steps)
    ensures Tells(StateAfter(s, steps), id, StoryAlong(story, s, steps, id))
    decreases |steps|
  {
    hide Tells, NextStory, Apply;
    if steps != [] {
      StepTells(s, steps[0], id, story);
      EntryTold(Apply(s, steps[0]), steps[1..], id, NextStory(story, s, steps[0], id));
    }
  }
}
