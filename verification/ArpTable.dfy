/** The ARP cache and the queue of datagrams waiting for it: src/arp_table.cc, src/arp_message_queue.cc. */
module ArpTables {
  import opened Common
  import opened Timers

  type EthernetAddress = seq<Byte>

  /** An IPv4 datagram, as its serialized bytes. */
  type Datagram = seq<Byte>

  datatype Entry = Entry(mac: EthernetAddress, ttl: Clock)

  type Table = map<U32, Entry>

  function WithEntry(m: Table, ip: U32, mac: EthernetAddress): Table
  {
    var ttl := if ip in m then m[ip].ttl else Clock(30000, 0, false);
    m[ip := Entry(mac, ttl.Start())]
  }

  /** The cached address, unless it has expired. */
  function CachedMac(m: Table, ip: U32): Option<EthernetAddress>
  {
    if ip in m && !m[ip].ttl.Expired() then Some(m[ip].mac) else None
  }

  function Evict(m: Table, ip: U32): Table
  {
    if ip in m && m[ip].ttl.Expired() then m - {ip} else m
  }

  /** An address is found exactly if its clock is stopped or short of the timeout, and otherwise its
      entry goes; no other entry is touched. */
  lemma LookupMeaning(m: Table, ip: U32, other: U32)
    ensures CachedMac(m, ip).Some? <==> ip in m && (!m[ip].ttl.running || m[ip].ttl.elapsedMs < m[ip].ttl.timeoutMs)
    ensures CachedMac(m, ip).Some? ==> CachedMac(m, ip).value == m[ip].mac && Evict(m, ip) == m
    ensures CachedMac(m, ip).None? ==> ip !in Evict(m, ip)
    ensures other != ip ==> (other in Evict(m, ip) <==> other in m)
    ensures other != ip && other in m ==> Evict(m, ip)[other] == m[other]
  {
  }

  /** Every entry ages; the expired ones go. */
  ghost predicate TickedTable(m: Table, m': Table, ms: nat)
  {
    && (forall ip :: ip in m' <==> ip in m && !m[ip].ttl.Tick(ms).Expired())
    && (forall ip :: ip in m' ==> m'[ip] == m[ip].(ttl := m[ip].ttl.Tick(ms)))
  }

  class ARPTable {
    var entries: Table

    constructor ()
      ensures entries == map[]
    {
      entries := map[];
    }

    method AddEntry(ip: U32, mac: EthernetAddress)
      modifies this
      ensures entries == WithEntry(old(entries), ip, mac)
    {
      if ip !in entries {
        entries := entries[ip := Entry([], Clock(30000, 0, false))];
      }
      entries := entries[ip := entries[ip].(mac := mac)];
      entries := entries[ip := entries[ip].(ttl := entries[ip].ttl.Start())];
    }

    method Lookup(ip: U32) returns (mac: Option<EthernetAddress>)
      modifies this
      ensures mac == CachedMac(old(entries), ip)
      ensures entries == Evict(old(entries), ip)
    {
      if ip !in entries {
        return None;
      }
      if entries[ip].ttl.Expired() {
        entries := entries - {ip};
        return None;
      }
      return Some(entries[ip].mac);
    }

    method Tick(ms: nat)
      modifies this
      ensures TickedTable(old(entries), entries, ms)
    {
      var left := entries.Keys;
      while left != {}
        invariant left <= old(entries).Keys && left <= entries.Keys
        invariant forall ip :: ip in left ==> entries[ip] == old(entries)[ip]
        invariant forall ip :: ip !in left ==>
                    (ip in entries <==> ip in old(entries) && !old(entries)[ip].ttl.Tick(ms).Expired())
        invariant forall ip :: ip !in left && ip in entries ==>
                    entries[ip] == old(entries)[ip].(ttl := old(entries)[ip].ttl.Tick(ms))
      {
        var ip :| ip in left;
        left := left - {ip};
        var ttl := entries[ip].ttl.Tick(ms);
        if ttl.Expired() {
          entries := entries - {ip};
        } else {
          entries := entries[ip := entries[ip].(ttl := ttl)];
        }
      }
    }
  }

  datatype PendingDatagram = PendingDatagram(dgram: Datagram, nextHop: U32, timer: Clock)

  type Waiting = map<U32, seq<PendingDatagram>>

  predicate HasPending(w: Waiting, ip: U32) { ip in w && w[ip] != [] }

  function WithPending(w: Waiting, dgram: Datagram, nextHop: U32): Waiting
  {
    var queue := if nextHop in w then w[nextHop] else [];
    w[nextHop := queue + [PendingDatagram(dgram, nextHop, Clock(5000, 0, false).Start())]]
  }

  function Queue(w: Waiting, ip: U32): seq<PendingDatagram>
  {
    if ip in w then w[ip] else []
  }

  /** Only the head of a queue ages, and the whole queue goes with it. */
  function TickedQueue(queue: seq<PendingDatagram>, ms: nat): seq<PendingDatagram>
  {
    if queue == [] || queue[0].timer.Tick(ms).Expired() then []
    else queue[0 := queue[0].(timer := queue[0].timer.Tick(ms))]
  }

  ghost predicate TickedWaiting(w: Waiting, w': Waiting, ms: nat)
  {
    && (forall ip :: ip in w' <==> ip in w && TickedQueue(w[ip], ms) != [])
    && (forall ip :: ip in w' ==> w'[ip] == TickedQueue(w[ip], ms))
  }

  /** The head of the queue for `ip` expires in this tick. */
  predicate TimesOut(w: Waiting, ip: U32, ms: nat)
  {
    HasPending(w, ip) && TickedQueue(w[ip], ms) == []
  }

  /** Each next hop not in `left` whose queue times out is listed once, and no other. */
  ghost predicate Notified(expired: seq<U32>, w: Waiting, left: set<U32>, ms: nat)
  {
    forall ip :: multiset(expired)[ip] == if ip !in left && TimesOut(w, ip, ms) then 1 else 0
  }

  lemma NoneNotified(w: Waiting, ms: nat)
    ensures Notified([], w, w.Keys, ms)
  {
  }

  lemma NotifyNext(expired: seq<U32>, w: Waiting, left: set<U32>, ip: U32, ms: nat)
    requires Notified(expired, w, left, ms) && ip in left
    ensures Notified(if TimesOut(w, ip, ms) then expired + [ip] else expired, w, left - {ip}, ms)
  {
    CountSnoc(expired, ip);
  }

  class ARPMessageQueue {
    var pending: Waiting

    /** Every datagram waits in the queue of its own next hop. */
    ghost predicate Valid()
      reads this
    {
      forall ip :: ip in pending ==> forall i :: 0 <= i < |pending[ip]| ==> pending[ip][i].nextHop == ip
    }

    constructor ()
      ensures Valid() && pending == map[]
    {
      pending := map[];
    }

    method AddPending(dgram: Datagram, nextHop: U32)
      requires Valid()
      modifies this
      ensures Valid() && pending == WithPending(old(pending), dgram, nextHop)
    {
      if nextHop !in pending {
        pending := pending[nextHop := []];
      }
      var entry := PendingDatagram(dgram, nextHop, Clock(5000, 0, false));
      entry := entry.(timer := entry.timer.Start());
      pending := pending[nextHop := pending[nextHop] + [entry]];
    }

    method PopPending(ip: U32) returns (out: seq<PendingDatagram>)
      requires Valid()
      modifies this
      ensures Valid() && out == Queue(old(pending), ip) && pending == old(pending) - {ip}
    {
      if ip !in pending {
        assert pending == pending - {ip};
        return [];
      }
      out := pending[ip];
      pending := pending - {ip};
    }

    /** Returns the next hops the timeout callback is invoked with: each one whose queue times
        out, once. */
    method Tick(ms: nat) returns (expired: seq<U32>)
      requires Valid()
      modifies this
      ensures Valid() && TickedWaiting(old(pending), pending, ms)
      ensures Notified(expired, old(pending), {}, ms)
    {
      hide Notified;
      expired := [];
      var left := pending.Keys;
      NoneNotified(old(pending), ms);
      while left != {}
        invariant Valid() && left <= old(pending).Keys && left <= pending.Keys
        invariant forall ip :: ip in left ==> pending[ip] == old(pending)[ip]
        invariant forall ip :: ip !in left ==>
                    (ip in pending <==> ip in old(pending) && TickedQueue(old(pending)[ip], ms) != [])
        invariant forall ip :: ip !in left && ip in pending ==> pending[ip] == TickedQueue(old(pending)[ip], ms)
        invariant Notified(expired, old(pending), left, ms)
      {
        var ip :| ip in left;
        NotifyNext(expired, old(pending), left, ip, ms);
        left := left - {ip};
        var queue := pending[ip];
        if queue == [] {
          pending := pending - {ip};
        } else {
          queue := queue[0 := queue[0].(timer := queue[0].timer.Tick(ms))];
          if queue[0].timer.Expired() {
            pending := pending - {ip};
            expired := expired + [queue[0].nextHop];
          } else {
            pending := pending[ip := queue];
          }
        }
      }
    }
  }
}
