/** The subscription table of a reactive interface: topic -> ordered callback list, where a
    topic is an item name or the wildcard `*`. */
module Subscriptions {
  import opened Seqs
  import opened Items

  type Table = map<string, seq<CallbackId>>

  const Wildcard := "*"

  /** The callbacks listed under a topic, empty when the topic was never subscribed. */
  function Topic(t: Table, topic: string): seq<CallbackId> {
    if topic in t then t[topic] else []
  }

  /** Appends the callback to its topic's list, creating the list when needed. */
  function Subscribe(t: Table, topic: string, cb: CallbackId): (r: Table)
    ensures topic in r && r[topic] == Topic(t, topic) + [cb]
    ensures forall k :: k != topic ==> Topic(r, k) == Topic(t, k)
    ensures r.Keys == t.Keys + {topic}
  {
    t[topic := Topic(t, topic) + [cb]]
  }

  /** Removes the first listing of the callback; an unknown topic or callback changes nothing. */
  function Unsubscribe(t: Table, topic: string, cb: CallbackId): (r: Table)
    ensures topic !in t || cb !in t[topic] ==> r == t
    ensures topic in t && cb in t[topic] ==> r == t[topic := RemoveFirst(t[topic], cb)]
    ensures r.Keys == t.Keys
  {
    if topic in t && cb in t[topic] then t[topic := RemoveFirst(t[topic], cb)] else t
  }

  /** The callbacks one broadcast for item `name` invokes, in call order: the item's own
      subscribers in subscription order, then the wildcard subscribers in order. */
  function Listeners(t: Table, name: string): seq<CallbackId> {
    Topic(t, name) + Topic(t, Wildcard)
  }

  /** Subscribing adds exactly one call of the callback to broadcasts of the topic's item,
      and, for the wildcard, to broadcasts of every item; an item named `*` itself hears a
      wildcard subscriber twice. */
  lemma SubscribeAddsOneCall(t: Table, topic: string, cb: CallbackId, name: string)
    ensures multiset(Listeners(Subscribe(t, topic, cb), name))
         == multiset(Listeners(t, name))
            + (if name == topic then multiset{cb} else multiset{})
            + (if topic == Wildcard then multiset{cb} else multiset{})
  {
    var r := Subscribe(t, topic, cb);
    var extraOwn := TopicGains(t, topic, cb, name);
    var extraWild := TopicGains(t, topic, cb, Wildcard);
    var own, wild := Topic(t, name), Topic(t, Wildcard);
    calc {
      multiset(Listeners(r, name));
      multiset(Topic(r, name)) + multiset(Topic(r, Wildcard));
      (multiset(own) + extraOwn) + (multiset(wild) + extraWild);
      multiset(own) + multiset(wild) + extraOwn + extraWild;
      multiset(Listeners(t, name)) + extraOwn + extraWild;
    }
  }

  /** What subscribing adds to the listing of topic `k`: one `cb` when `k` is the topic. */
  lemma TopicGains(t: Table, topic: string, cb: CallbackId, k: string) returns (extra: multiset<CallbackId>)
    ensures extra == if k == topic then multiset{cb} else multiset{}
    ensures multiset(Topic(Subscribe(t, topic, cb), k)) == multiset(Topic(t, k)) + extra
  {
    extra := if k == topic then multiset{cb} else multiset{};
  }

  /** Unsubscribing a listed callback removes exactly one of its listings from its topic and
      keeps the order of the others. */
  lemma UnsubscribeRemovesOne(t: Table, topic: string, cb: CallbackId)
    requires cb in Topic(t, topic)
    ensures multiset(Topic(Unsubscribe(t, topic, cb), topic))[cb] == multiset(Topic(t, topic))[cb] - 1
    ensures |Topic(Unsubscribe(t, topic, cb), topic)| == |Topic(t, topic)| - 1
    ensures forall k :: k != topic ==> Topic(Unsubscribe(t, topic, cb), k) == Topic(t, k)
  {
  }

  /** Subscribing a callback that the topic did not list and unsubscribing it again leaves
      every broadcast's call list as it was. */
  lemma SubscribeThenUnsubscribe(t: Table, topic: string, cb: CallbackId, name: string)
    requires cb !in Topic(t, topic)
    ensures Listeners(Unsubscribe(Subscribe(t, topic, cb), topic, cb), name) == Listeners(t, name)
  {
    TopicRestored(t, topic, cb, name);
    TopicRestored(t, topic, cb, Wildcard);
  }

  lemma TopicRestored(t: Table, topic: string, cb: CallbackId, k: string)
    requires cb !in Topic(t, topic)
    ensures Topic(Unsubscribe(Subscribe(t, topic, cb), topic, cb), k) == Topic(t, k)
  {
    var r := Subscribe(t, topic, cb);
    RemoveAppended(Topic(t, topic), cb);
    var u := Unsubscribe(r, topic, cb);
    assert u == r[topic := Topic(t, topic)];
  }
}
