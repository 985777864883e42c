/**
 * The Redux slice of frontend/app/src/store/appSlice.js: the dashboard's
 * counter, navigation state and the eight temperature channels, and the
 * reducers that produce each next state.
 */
module AppSlice {
  import opened Text

  /** channelColors: one chart colour per channel. */
  const ChannelColors: seq<string> :=
    ["#EF4444", "#F97316", "#EAB308", "#22C55E", "#14B8A6", "#3B82F6", "#6366F1", "#A855F7"]

  /** The number of initial data points per channel. */
  const InitialPoints := 12

  /** One channel object: its display name and colour, whether it is enabled, and its readings. */
  datatype Channel = Channel(name: string, color: string, enabled: bool, dataPoints: seq<int>)

  /** One property of the channels object; a sequence of them keeps the object's key order. */
  datatype Entry = Entry(key: string, channel: Channel)

  /** The slice state: value, navState and channels. */
  datatype State = State(value: int, navState: string, channels: seq<Entry>)

  /** The object built for channel i: "Channel i", colour i, enabled, readings 22 + i to 33 + i. */
  function InitChannel(i: nat): (c: Channel)
    requires i < |ChannelColors|
    ensures c.name == "Channel " + Decimal(i) && c.color == ChannelColors[i] && c.enabled
    ensures |c.dataPoints| == InitialPoints
    ensures forall k :: 0 <= k < InitialPoints ==> c.dataPoints[k] == 22 + i + k
  {
    Channel("Channel " + Decimal(i), ChannelColors[i], true,
            [22 + i, 23 + i, 24 + i, 25 + i, 26 + i, 27 + i, 28 + i, 29 + i, 30 + i, 31 + i, 32 + i, 33 + i])
  }

  /** The keys "ch0", "ch1", ... for the first n channels, in order. */
  function ChannelKeys(n: nat): (r: seq<string>)
    ensures |r| == n
    ensures forall i :: 0 <= i < n ==> r[i] == "ch" + Decimal(i)
  {
    if n == 0 then [] else ChannelKeys(n - 1) + ["ch" + Decimal(n - 1)]
  }

  /** `.map((channel, i) => [channel, {...}])` over the keys, fed to Object.fromEntries. */
  function EntriesOf(keys: seq<string>, from: nat): (r: seq<Entry>)
    requires from + |keys| <= |ChannelColors|
    ensures |r| == |keys|
    ensures forall i :: 0 <= i < |keys| ==> r[i] == Entry(keys[i], InitChannel(from + i))
  {
    if keys == [] then [] else [Entry(keys[0], InitChannel(from))] + EntriesOf(keys[1..], from + 1)
  }

  /** initChannels: one entry per colour, keyed "ch" + i. */
  function InitChannels(): (r: seq<Entry>)
    ensures |r| == |ChannelColors|
    ensures forall i :: 0 <= i < |r| ==> r[i] == Entry("ch" + Decimal(i), InitChannel(i))
  {
    EntriesOf(ChannelKeys(|ChannelColors|), 0)
  }

  /**
   * initChannels yields ch0 to ch7 in order, channel i named "Channel i" with
   * colour i, enabled, and the twelve readings 22 + i to 33 + i.
   */
  lemma InitChannelsContents()
    ensures |InitChannels()| == 8
    ensures forall i :: 0 <= i < 8 ==>
              InitChannels()[i].key == "ch" + Decimal(i)
              && InitChannels()[i].channel.name == "Channel " + Decimal(i)
              && InitChannels()[i].channel.color == ChannelColors[i]
              && InitChannels()[i].channel.enabled
              && |InitChannels()[i].channel.dataPoints| == 12
              && forall k :: 0 <= k < 12 ==> InitChannels()[i].channel.dataPoints[k] == 22 + i + k
  {
  }

  /** "ch" + i names different channels for different i: a decimal string reads back as its number. */
  lemma ChannelKeyInjective(i: nat, j: nat)
    requires "ch" + Decimal(i) == "ch" + Decimal(j)
    ensures i == j
  {
    assert ("ch" + Decimal(i))[2..] == Decimal(i);
    assert ("ch" + Decimal(j))[2..] == Decimal(j);
  }

  /** The keys of the initial channels are pairwise distinct, so fromEntries loses none of them. */
  lemma InitChannelKeysDistinct()
    ensures forall i, j :: 0 <= i < j < |InitChannels()| ==> InitChannels()[i].key != InitChannels()[j].key
  {
    forall i, j | 0 <= i < j < |InitChannels()|
      ensures InitChannels()[i].key != InitChannels()[j].key
    {
      if InitChannels()[i].key == InitChannels()[j].key {
        ChannelKeyInjective(i, j);
      }
    }
  }

  /** The slice's initialState. */
  function InitialState(): (s: State)
    ensures s.value == 0 && s.navState == "home" && s.channels == InitChannels()
  {
    State(0, "home", InitChannels())
  }

  /** The actions the slice exports, with their payloads. */
  datatype Action =
    | Increment
    | Decrement
    | IncrementByAmount(amount: int)
    | SetNavState(navState: string)
    | SetChannels(channels: seq<Entry>)

  /** The change an action makes to value, independently of the state. */
  function Delta(a: Action): int
  {
    match a
    case Increment => 1
    case Decrement => -1
    case IncrementByAmount(amount) => amount
    case _ => 0
  }

  /**
   * The slice reducer: increment, decrement and incrementByAmount add to
   * value; setNavState and setChannels replace their field; nothing else
   * changes.
   */
  function Reduce(s: State, a: Action): (r: State)
    ensures r.value == s.value + Delta(a)
    ensures r.navState == if a.SetNavState? then a.navState else s.navState
    ensures r.channels == if a.SetChannels? then a.channels else s.channels
  {
    match a
    case Increment => s.(value := s.value + 1)
    case Decrement => s.(value := s.value - 1)
    case IncrementByAmount(amount) => s.(value := s.value + amount)
    case SetNavState(nav) => s.(navState := nav)
    case SetChannels(channels) => s.(channels := channels)
  }

  /** decrement undoes increment, and incrementByAmount(-n) undoes incrementByAmount(n). */
  lemma IncrementInverses(s: State, n: int)
    ensures Reduce(Reduce(s, Increment), Decrement) == s
    ensures Reduce(Reduce(s, Decrement), Increment) == s
    ensures Reduce(Reduce(s, IncrementByAmount(n)), IncrementByAmount(-n)) == s
  {
  }

  /** The state after dispatching the actions in order. */
  function ReduceAll(s: State, actions: seq<Action>): State
    decreases |actions|
  {
    if actions == [] then s else ReduceAll(Reduce(s, actions[0]), actions[1..])
  }

  /** The sum of the actions' changes to value. */
  function SumDeltas(actions: seq<Action>): int
  {
    if actions == [] then 0 else Delta(actions[0]) + SumDeltas(actions[1..])
  }

  /**
   * After any sequence of actions, value has moved by exactly the sum of the
   * counter actions' changes, and channels is untouched when no setChannels
   * was dispatched.
   */
  lemma {:induction false} ReduceAllValue(s: State, actions: seq<Action>)
    ensures ReduceAll(s, actions).value == s.value + SumDeltas(actions)
    ensures (forall k :: 0 <= k < |actions| ==> !actions[k].SetChannels?) ==> ReduceAll(s, actions).channels == s.channels
    decreases |actions|
  {
    if actions != [] {
      ReduceAllValue(Reduce(s, actions[0]), actions[1..]);
      assert forall k :: 1 <= k < |actions| ==> actions[1..][k - 1] == actions[k];
    }
  }
}
