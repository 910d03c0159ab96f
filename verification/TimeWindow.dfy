/**
 * Time-stamp lists pruned in place over their own backing array, the idiom
 * shared by the rate limiter and the alert tracker.
 */
module TimeWindow {
  import opened Prelude

  /** The entries of `s` strictly later than `cutoff`, in order. */
  function After(s: seq<int>, cutoff: int): (r: seq<int>)
    ensures |r| <= |s|
  {
    if s == [] then []
    else
      var last := s[|s| - 1];
      After(s[..|s| - 1], cutoff) + if last > cutoff then [last] else []
  }

  lemma AfterSnoc(s: seq<int>, t: int, cutoff: int)
    ensures After(s + [t], cutoff) == After(s, cutoff) + if t > cutoff then [t] else []
  {
    assert (s + [t])[..|s|] == s;
  }

  /** Pruning twice is pruning once with the later cutoff. */
  lemma {:induction false} PruneIdempotent(s: seq<int>, early: int, late: int)
    requires early <= late
    ensures After(After(s, early), late) == After(s, late)
  {
    if s != [] {
      var init, last := s[..|s| - 1], s[|s| - 1];
      PruneIdempotent(init, early, late);
      if last > early {
        AfterSnoc(After(init, early), last, late);
      } else {
        assert After(s, early) == After(init, early);
      }
    }
  }

  /** A later cutoff never keeps more. */
  lemma {:induction false} AfterShrinks(s: seq<int>, early: int, late: int)
    requires early <= late
    ensures |After(s, late)| <= |After(s, early)|
  {
    PruneIdempotent(s, early, late);
  }

  /** `s` pruned to the half-open interval (lo, hi]. */
  function Within(s: seq<int>, lo: int, hi: int): (r: seq<int>)
    ensures |r| <= |s|
  {
    if s == [] then []
    else
      var last := s[|s| - 1];
      Within(s[..|s| - 1], lo, hi) + if lo < last <= hi then [last] else []
  }

  lemma {:induction false} WithinAtMostAfter(s: seq<int>, lo: int, hi: int)
    ensures |Within(s, lo, hi)| <= |After(s, lo)|
  {
    if s != [] {
      WithinAtMostAfter(s[..|s| - 1], lo, hi);
    }
  }

  lemma WithinSnoc(s: seq<int>, t: int, lo: int, hi: int)
    ensures Within(s + [t], lo, hi) == Within(s, lo, hi) + if lo < t <= hi then [t] else []
  {
    assert (s + [t])[..|s|] == s;
  }

  /** A Go slice of time stamps: a prefix of its backing array. */
  datatype Slice = Slice(buf: array<int>, len: nat)

  /**
   * Keep the stamps later than `cutoff`, writing them over the front of the
   * same array. Entries not yet read are never overwritten.
   */
  method PruneInPlace(s: Slice, cutoff: int) returns (valid: Slice)
    requires s.len <= s.buf.Length
    modifies s.buf
    ensures valid.buf == s.buf && valid.len <= s.len
    ensures valid.buf[..valid.len] == After(old(s.buf[..s.len]), cutoff)
    ensures s.buf[s.len..] == old(s.buf[s.len..])
  {
    var kept := 0;
    for i := 0 to s.len
      invariant kept <= i
      invariant s.buf[..kept] == After(old(s.buf[..i]), cutoff)
      invariant forall j :: i <= j < s.buf.Length ==> s.buf[j] == old(s.buf[j])
    {
      var t := s.buf[i];
      ghost var before := s.buf[..kept];
      assert old(s.buf[..i + 1])[..i] == old(s.buf[..i]);
      if t > cutoff {
        s.buf[kept] := t;
        kept := kept + 1;
        assert s.buf[..kept] == before + [t];
      }
    }
    valid := Slice(s.buf, kept);
  }

  /** Go's append: write in place when capacity allows, else move to a larger array. */
  method Append(s: Slice, t: int) returns (r: Slice)
    requires s.len <= s.buf.Length
    modifies s.buf
    ensures r.len == s.len + 1 <= r.buf.Length
    ensures r.buf[..r.len] == old(s.buf[..s.len]) + [t]
    ensures r.buf == s.buf || fresh(r.buf)
  {
    if s.len < s.buf.Length {
      s.buf[s.len] := t;
      r := Slice(s.buf, s.len + 1);
    } else {
      var grown := new int[2 * s.len + 1];
      for i := 0 to s.len
        invariant grown[..i] == s.buf[..i]
        invariant s.buf[..] == old(s.buf[..])
      {
        grown[i] := s.buf[i];
      }
      grown[s.len] := t;
      r := Slice(grown, s.len + 1);
      assert r.buf[..s.len] == s.buf[..s.len];
    }
  }

  /** A key's slice, with every time recorded since its last reset and the cutoff it was last pruned to. */
  datatype Entry = Entry(slice: Slice, ghost times: seq<int>, ghost cut: int) {
    ghost predicate Valid()
      reads slice.buf
    {
      slice.len <= slice.buf.Length && slice.buf[..slice.len] == After(times, cut)
    }
  }

  /** The times on record once `t` has been offered: it joins only if fewer than `room` survive the cutoff. */
  function Offer(times: seq<int>, cutoff: int, t: int, room: Option<nat>): seq<int> {
    match room
    case None => times + [t]
    case Some(limit) => if |After(times, cutoff)| < limit then times + [t] else times
  }

  /** Prune a slice in place, then append `t` unless `room` entries are already left. */
  method SlideEntry(e: Entry, cutoff: int, t: int, room: Option<nat>) returns (r: Entry, kept: nat)
    requires e.Valid() && e.cut <= cutoff < t
    modifies e.slice.buf
    ensures r.Valid() && (r.slice.buf == e.slice.buf || fresh(r.slice.buf)) && r.cut == cutoff
    ensures kept == |After(e.times, cutoff)| <= e.slice.len
    ensures r.slice.len == if room.Some? && kept >= room.value then kept else kept + 1
    ensures r.times == Offer(e.times, cutoff, t, room)
  {
    var pruned := PruneInPlace(e.slice, cutoff);
    PruneIdempotent(e.times, e.cut, cutoff);
    kept := pruned.len;
    if room.Some? && kept >= room.value {
      r := Entry(pruned, e.times, cutoff);
    } else {
      AfterSnoc(e.times, t, cutoff);
      var extended := Append(pruned, t);
      r := Entry(extended, e.times + [t], cutoff);
    }
  }

  function Get<K>(m: map<K, seq<int>>, key: K): seq<int> {
    if key in m then m[key] else []
  }

  /** A Go map from keys to time-stamp slices, each over a backing array of its own. */
  class StampTable<K(==)> {
    const window: nat
    var windows: map<K, Entry>
    ghost var clock: int                 // the latest instant seen
    ghost var recorded: map<K, seq<int>> // the full history behind the pruned lists
    ghost var owner: map<array<int>, K>  // the key each backing array serves
    ghost var Repr: set<object>

    ghost predicate Valid()
      reads this, Repr
    {
      && this in Repr && 0 < window && windows.Keys == recorded.Keys
      && forall k :: k in windows ==> Owned(k) && windows[k].Valid()
    }

    ghost predicate Owned(k: K)
      requires k in windows && k in recorded
      reads this
    {
      var buf := windows[k].slice.buf;
      windows[k].times == recorded[k] && buf in Repr && buf in owner && owner[buf] == k && windows[k].cut <= clock - window
    }

    constructor (window: nat)
      requires 0 < window
      ensures Valid() && fresh(Repr) && windows == map[] && recorded == map[] && this.window == window
    {
      this.window := window;
      windows, recorded, owner := map[], map[], map[];
      Repr := {this};
    }

    /** The key's entry, or an empty one for a key not seen. */
    method Lookup(key: K, now: int) returns (entry: Entry)
      requires Valid() && clock <= now
      ensures entry.Valid() && entry.cut <= now - window
      ensures entry.times == Get(recorded, key)
      ensures if key in windows then entry == windows[key] else entry.slice.len == 0 && fresh(entry.slice.buf)
    {
      if key in windows {
        entry := windows[key];
      } else {
        var empty := new int[0];
        entry := Entry(Slice(empty, 0), [], now - window);
      }
    }

    /** Store a rebuilt entry whose array serves no other key. */
    method Store(key: K, entry: Entry, now: int)
      requires this in Repr && 0 < window && clock <= now && windows.Keys == recorded.Keys
      requires entry.Valid() && entry.cut <= now - window
      requires forall k :: k in windows && k != key ==>
        Owned(k) && windows[k].Valid() && windows[k].slice.buf != entry.slice.buf
      modifies this
      ensures Valid() && Repr == old(Repr) + {entry.slice.buf} && clock == now
      ensures windows == old(windows)[key := entry]
      ensures recorded == old(recorded)[key := entry.times]
    {
      windows, recorded := windows[key := entry], recorded[key := entry.times];
      owner := owner[entry.slice.buf := key];
      Repr := Repr + {entry.slice.buf};
      clock := now;
    }

    /** Prune one key's slice to the window ending at `now`, then offer it the stamp `t`. */
    method Slide(key: K, now: int, t: int, room: Option<nat>) returns (kept: nat)
      requires Valid() && clock <= now <= t
      modifies Repr
      ensures Valid() && fresh(Repr - old(Repr)) && clock == t
      ensures kept == |After(Get(old(recorded), key), now - window)|
      ensures recorded == old(recorded)[key := Offer(Get(old(recorded), key), now - window, t, room)]
      ensures forall k :: k in windows && k != key ==> k in old(windows) && windows[k] == old(windows)[k]
      ensures key in windows
      ensures windows[key].slice.len == if room.Some? && kept >= room.value then kept else kept + 1
      ensures kept <= if key in old(windows) then old(windows)[key].slice.len else 0
    {
      hide After;
      var entry := Lookup(key, now);
      assert forall k :: k in windows && k != key ==> windows[k].slice.buf != entry.slice.buf;
      var slid;
      slid, kept := SlideEntry(entry, now - window, t, room);
      Store(key, slid, t);
    }

    method Delete(key: K)
      requires Valid()
      modifies this`windows, this`recorded
      ensures Valid() && windows == old(windows) - {key} && recorded == old(recorded) - {key}
    {
      windows, recorded := windows - {key}, recorded - {key};
    }
  }
}
