// The two shapes every component uses for "no value" and for Python's defaultdict.
module Options {

  datatype Option<+T> = None | Some(value: T)

  /** The senders recorded under `k`; like a `defaultdict(set)`, an absent key reads as the empty set. */
  function Senders<K>(m: map<K, set<nat>>, k: K): set<nat> {
    if k in m then m[k] else {}
  }

  /** `m[k].add(sender)` on a `defaultdict(set)`. */
  function AddSender<K>(m: map<K, set<nat>>, k: K, sender: nat): map<K, set<nat>> {
    m[k := Senders(m, k) + {sender}]
  }
}
