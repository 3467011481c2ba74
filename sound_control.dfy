/** The sound-effect manager of SoundControl.cs.

    `SoundControl` holds the registry from sound names to `AudioClipInfo` pools.
    Each pool's `stockList` (a SortedList keyed by slot index) holds its idle
    `SEInfo` slots, and its `playingList` holds the active ones in the order they
    were started. Every method is specified by a function of module VoicePool
    applied to the pool's ghost `Model`; the two collections are always the views
    StockOf and ListOf of that model. */
module SoundEffects {
  import opened VoicePool

  /** An audio clip; only its length in seconds matters here. */
  datatype Clip = Clip(length: real)

  /** A call of AudioSource.PlayOneShot: the clip and the volume it is played at. */
  datatype Sound = Sound(clip: Clip, volume: real)

  /** How a call of playSE ends. It returns `ok`, having started `sound` if any.
      ClipNotLoaded is the NullReferenceException thrown when the clip could not be
      loaded and its length is read. */
  datatype PlayOutcome = Returned(ok: bool, sound: Option<Sound>) | ClipNotLoaded

  /** One voice slot: its index in the pool, its remaining play time and the volume
      it plays at. Each slot sits in exactly one of the pool's two collections at a
      time, so it is modelled as a value that moves between them. */
  datatype SEInfo = SEInfo(index: int, curTime: real, volume: real)

  /** The slot i of a pool whose countdowns are `time`: its index, its countdown
      and its volume (the guards only matter for indices outside the pool). */
  function Entry(time: seq<real>, initVolume: real, attenuate: real, i: int): SEInfo {
    SEInfo(i, if 0 <= i < |time| then time[i] else 0.0,
           if 0 <= i then Volume(initVolume, attenuate, i) else 0.0)
  }

  /** The stockList that holds the slots `idle`. */
  function StockOf(time: seq<real>, idle: set<int>, initVolume: real, attenuate: real): (r: map<int, SEInfo>)
    ensures r.Keys == idle
  {
    map k | k in idle :: Entry(time, initVolume, attenuate, k)
  }

  /** The playingList that holds the slots `ids`, in that order. */
  function ListOf(time: seq<real>, ids: seq<int>, initVolume: real, attenuate: real): seq<SEInfo> {
    seq(|ids|, j requires 0 <= j < |ids| => Entry(time, initVolume, attenuate, ids[j]))
  }

  /** A pool that keeps the bookkeeping invariant. */
  type ValidPool = p: Pool | Inv(p) witness Pool([], {}, [])

  /** The stock the constructor builds is the stock of a fresh pool of n slots. */
  lemma InitViews(stock: map<int, SEInfo>, n: nat, initVolume: real, attenuate: real)
    requires forall k :: k in stock <==> 0 <= k < n
    requires forall k :: k in stock ==> stock[k] == SEInfo(k, 0.0, Volume(initVolume, attenuate, k))
    ensures stock == StockOf(Init(n).time, Init(n).idle, initVolume, attenuate)
  {
  }

  /** Every entry of the two collections is its slot's own index and volume, with
      the slot's countdown: index and volume are fixed per slot, only curTime
      follows the pool. */
  lemma ViewsIdentity(m: Pool, initVolume: real, attenuate: real)
    requires Inv(m)
    ensures var stock := StockOf(m.time, m.idle, initVolume, attenuate);
      forall k :: k in stock ==> stock[k] == SEInfo(k, m.time[k], Volume(initVolume, attenuate, k))
    ensures var list := ListOf(m.time, m.active, initVolume, attenuate);
      |list| == |m.active| &&
      forall j :: 0 <= j < |list| ==>
        list[j] == SEInfo(m.active[j], m.time[m.active[j]], Volume(initVolume, attenuate, m.active[j]))
  {
  }

  /** Setting the countdown of slot i. */
  lemma EntryRetime(time: seq<real>, initVolume: real, attenuate: real, i: int, v: real)
    requires 0 <= i < |time|
    ensures Entry(time[i := v], initVolume, attenuate, i) ==
      Entry(time, initVolume, attenuate, i).(curTime := v)
  {
  }

  /** Changing the countdown of a slot that is in neither collection changes
      neither. */
  lemma ViewsRetime(time: seq<real>, idle: set<int>, ids: seq<int>,
                    initVolume: real, attenuate: real, i: int, v: real)
    requires 0 <= i < |time| && i !in idle && i !in ids
    ensures StockOf(time[i := v], idle, initVolume, attenuate) == StockOf(time, idle, initVolume, attenuate)
    ensures ListOf(time[i := v], ids, initVolume, attenuate) == ListOf(time, ids, initVolume, attenuate)
  {
  }

  /** List.Add on the playing list. */
  lemma ListSnoc(time: seq<real>, ids: seq<int>, initVolume: real, attenuate: real, i: int)
    ensures ListOf(time, ids + [i], initVolume, attenuate) ==
      ListOf(time, ids, initVolume, attenuate) + [Entry(time, initVolume, attenuate, i)]
  {
  }

  /** SortedList.Add and SortedList.Remove on the stock. */
  lemma StockAddRemove(time: seq<real>, idle: set<int>, initVolume: real, attenuate: real, i: int)
    ensures StockOf(time, idle + {i}, initVolume, attenuate) ==
      StockOf(time, idle, initVolume, attenuate)[i := Entry(time, initVolume, attenuate, i)]
    ensures StockOf(time, idle - {i}, initVolume, attenuate) ==
      StockOf(time, idle, initVolume, attenuate) - {i}
  {
  }

  /** playSE on a non-empty stock: taking Values[0] of the SortedList, the entry
      with the least key k, giving it countdown len and moving it to the playing
      list is the model's Acquire, which takes slot k. */
  lemma AcquireViews(m: Pool, initVolume: real, attenuate: real, k: int, len: real)
    requires Inv(m) && k in m.idle && forall j :: j in m.idle ==> k <= j
    ensures var a := Acquire(m, len);
      var s := Entry(m.time, initVolume, attenuate, k).(curTime := len);
      a.slot == Some(k) &&
      StockOf(a.pool.time, a.pool.idle, initVolume, attenuate) ==
        StockOf(m.time, m.idle, initVolume, attenuate) - {k} &&
      ListOf(a.pool.time, a.pool.active, initVolume, attenuate) ==
        ListOf(m.time, m.active, initVolume, attenuate) + [s]
  {
    var a := Acquire(m, len);
    assert a.slot.Some? && a.slot.value == k;
    assert k !in m.active;
    ViewsRetime(m.time, m.idle - {k}, m.active, initVolume, attenuate, k, len);
    StockAddRemove(m.time, m.idle, initVolume, attenuate, k);
    ListSnoc(a.pool.time, m.active, initVolume, attenuate, k);
    EntryRetime(m.time, initVolume, attenuate, k, len);
  }

  /** A slot outside the swept list and not idle is untouched by the sweep and
      ends in neither of its collections. */
  lemma SweepUntouched(time: seq<real>, idle: set<int>, act: seq<int>, dt: real, i: int)
    requires Sweepable(act, |time|) && 0 <= i < |time| && i !in act && i !in idle
    ensures var w := SweepFrom(time, idle, act, dt);
      |w.time| == |time| && w.time[i] == time[i] && i !in w.idle && i !in w.kept
  {
    SweepTime(time, idle, act, dt);
    SweepIdle(time, idle, act, dt);
    SweepKept(time, idle, act, dt);
  }

  /** Facts about step k of the expiry loop: the next active slot is untouched by
      the sweep so far and in neither of its collections, and sweeping it is one
      more step. */
  lemma SweepNext(p: Pool, k: nat, dt: real)
    requires Inv(p) && k < |p.active|
    ensures var i := p.active[k];
      var w := SweepFrom(p.time, p.idle, p.active[..k], dt);
      |w.time| == |p.time| && w.time[i] == p.time[i] && i !in w.idle && i !in w.kept &&
      SweepFrom(p.time, p.idle, p.active[..k + 1], dt) == SweepStep(w, i, dt)
  {
    var i := p.active[k];
    var pre := p.active[..k];
    assert Sweepable(pre, |p.time|) && i !in pre by {
      assert forall m :: 0 <= m < k ==> pre[m] == p.active[m];
    }
    SweepUntouched(p.time, p.idle, pre, dt, i);
    assert p.active[..k + 1] == pre + [i];
    SweepSnoc(p.time, p.idle, pre, i, dt);
  }

  /** One step of the expiry loop, slot k of the active list: if the collections
      built so far are the views of the sweep so far, then after the step they are
      the views of the sweep one step further, whichever way the slot goes. */
  lemma ExpireStepViews(p: Pool, k: nat, dt: real, initVolume: real, attenuate: real)
    requires Inv(p) && k < |p.active|
    ensures var i := p.active[k];
      var w := SweepFrom(p.time, p.idle, p.active[..k], dt);
      var w' := SweepFrom(p.time, p.idle, p.active[..k + 1], dt);
      var s := Entry(p.time, initVolume, attenuate, i);
      var t := s.(curTime := s.curTime - dt);
      var stock := StockOf(w.time, w.idle, initVolume, attenuate);
      var kept := ListOf(w.time, w.kept, initVolume, attenuate);
      (t.curTime > 0.0 ==>
        StockOf(w'.time, w'.idle, initVolume, attenuate) == stock &&
        ListOf(w'.time, w'.kept, initVolume, attenuate) == kept + [t]) &&
      (t.curTime <= 0.0 ==>
        i !in stock &&
        StockOf(w'.time, w'.idle, initVolume, attenuate) == stock[i := t] &&
        ListOf(w'.time, w'.kept, initVolume, attenuate) == kept)
  {
    var i := p.active[k];
    var w := SweepFrom(p.time, p.idle, p.active[..k], dt);
    SweepNext(p, k, dt);
    var v := w.time[i] - dt;
    var time1 := w.time[i := v];
    ViewsRetime(w.time, w.idle, w.kept, initVolume, attenuate, i, v);
    EntryRetime(w.time, initVolume, attenuate, i, v);
    if v > 0.0 {
      ListSnoc(time1, w.kept, initVolume, attenuate, i);
    } else {
      StockAddRemove(time1, w.idle, initVolume, attenuate, i);
    }
  }

  /** The "create stock list" loop of the four-argument constructor: slots 0 ..
      maxSENum-1, each with countdown 0 and volume initVolume * attenuate^i, keyed
      by their index. It is the stock of a fresh pool of that many slots. */
  method CreateStock(maxSENum: int, initVolume: real, attenuate: real) returns (stock: map<int, SEInfo>)
    ensures var n := if maxSENum < 0 then 0 else maxSENum;
      stock == StockOf(Init(n).time, Init(n).idle, initVolume, attenuate)
  {
    ghost var n := if maxSENum < 0 then 0 else maxSENum;
    stock := map[];
    var i := 0;
    while i < maxSENum
      invariant 0 <= i <= n
      invariant forall k :: k in stock <==> 0 <= k < i
      invariant forall k :: k in stock ==> stock[k] == SEInfo(k, 0.0, Volume(initVolume, attenuate, k))
    {
      var seInfo := SEInfo(i, 0.0, Volume(initVolume, attenuate, i));
      // every key so far is below i, so SortedList.Add never meets a duplicate
      assert seInfo.index !in stock;
      stock := stock[seInfo.index := seInfo];
      i := i + 1;
    }
    InitViews(stock, n, initVolume, attenuate);
  }

  /** A fresh pool's stock holds the slots 0 .. n-1, each with countdown 0 and
      volume initVolume * attenuate^i, and nothing plays. */
  lemma FreshStock(n: nat, initVolume: real, attenuate: real)
    ensures var m := Init(n);
      var stock := StockOf(m.time, m.idle, initVolume, attenuate);
      (forall k :: k in stock <==> 0 <= k < n) &&
      (forall k :: k in stock ==> stock[k] == SEInfo(k, 0.0, Volume(initVolume, attenuate, k))) &&
      ListOf(m.time, m.active, initVolume, attenuate) == []
  {
  }

  /** The voice pool of one registered sound effect. The settings are written only
      by the constructors, so they are constants. */
  class AudioClipInfo {
    /** The idle slots, keyed by their index (a SortedList; Values[0] is the slot
        with the least key). */
    var stockList: map<int, SEInfo>
    /** The active slots, in the order they were started. */
    var playingList: seq<SEInfo>
    const maxSENum: int
    const initVolume: real
    const attenuate: real
    const resourceName: string
    const name: string
    /** The clip, None until it has been loaded. */
    var clip: Option<Clip>

    /** The pool's bookkeeping: every slot's countdown, the idle keys, the active
        indices in order. It always keeps the pool invariant. */
    ghost var Model: ValidPool

    /** The two collections are the views of the model. */
    ghost predicate Valid()
      reads this`stockList, this`playingList, this`Model
    {
      stockList == StockOf(Model.time, Model.idle, initVolume, attenuate) &&
      playingList == ListOf(Model.time, Model.active, initVolume, attenuate)
    }

    /** The constructor that creates no slots: maxSENum keeps its default of 10 but
        the stock stays empty. */
    constructor Bare(resourceName: string, name: string)
      ensures Valid()
      ensures this.resourceName == resourceName && this.name == name && clip == None
      ensures maxSENum == 10 && initVolume == 1.0 && attenuate == 0.0
      ensures Model == Init(0) && stockList == map[] && playingList == []
    {
      stockList := map[];
      playingList := [];
      maxSENum := 10;
      initVolume := 1.0;
      attenuate := 0.0;
      this.resourceName := resourceName;
      this.name := name;
      clip := None;
      InitViews(map[], 0, 1.0, 0.0);
      Model := Init(0);
    }

    /** Creates maxSENum idle slots; slot i plays at initVolume * attenuate^i.
        attenuate is the ratio the Newton solver computes. */
    constructor (resourceName: string, name: string, maxSENum: int, initVolume: real, attenuate: real)
      ensures Valid()
      ensures this.resourceName == resourceName && this.name == name && clip == None
      ensures this.maxSENum == maxSENum && this.initVolume == initVolume && this.attenuate == attenuate
      ensures Model == Init(if maxSENum < 0 then 0 else maxSENum) && playingList == []
    {
      var n := if maxSENum < 0 then 0 else maxSENum;
      var stock := CreateStock(maxSENum, initVolume, attenuate);
      stockList := stock;
      playingList := [];
      this.maxSENum := maxSENum;
      this.initVolume := initVolume;
      this.attenuate := attenuate;
      this.resourceName := resourceName;
      this.name := name;
      clip := None;
      Model := Init(n);
    }

    /** The body of playSE once the clip length is known: the idle slot with the
        least index gets countdown len and joins the active list. Returns the
        volume to play it at, or None when every slot is active. */
    method Acquire(len: real) returns (volume: Option<real>)
      requires Valid()
      modifies this`stockList, this`playingList, this`Model
      ensures Valid()
      ensures var a := VoicePool.Acquire(old(Model), len);
        Model == a.pool &&
        (a.slot.None? ==> volume == None) &&
        (a.slot.Some? ==> volume == Some(Volume(initVolume, attenuate, a.slot.value)))
    {
      if |stockList| > 0 {
        ghost var m := Min(stockList.Keys);
        var k :| k in stockList && forall j :: j in stockList ==> k <= j;
        AcquireViews(Model, initVolume, attenuate, k, len);
        var seInfo := stockList[k];
        seInfo := seInfo.(curTime := len);
        playingList := playingList + [seInfo];
        stockList := stockList - {seInfo.index};
        volume := Some(seInfo.volume);
        Model := VoicePool.Acquire(Model, len).pool;
      } else {
        volume := None;
        assert Model.idle == {};
      }
    }

    /** The body of playSE once the pool is found: the clip is loaded from
        `resource` if it is not loaded yet, and a slot is taken for a tenth of the
        clip's length. */
    method Play(resource: Option<Clip>) returns (r: PlayOutcome)
      requires Valid()
      modifies this`stockList, this`playingList, this`Model, this`clip
      ensures Valid()
      ensures clip == if old(clip).Some? then old(clip) else resource
      ensures clip.None? ==> r == ClipNotLoaded && Model == old(Model)
      ensures clip.Some? ==>
        var a := VoicePool.Acquire(old(Model), clip.value.length / 10.0);
        Model == a.pool &&
        (a.slot.None? ==> r == Returned(true, None)) &&
        (a.slot.Some? ==>
          r == Returned(true, Some(Sound(clip.value, Volume(initVolume, attenuate, a.slot.value)))))
    {
      if clip.None? {
        clip := resource;
      }
      match clip {
        case None =>
          r := ClipNotLoaded;
        case Some(c) =>
          var len := c.length / 10.0;
          var volume := Acquire(len);
          match volume {
            case None => r := Returned(true, None);
            case Some(v) => r := Returned(true, Some(Sound(c, v)));
          }
      }
    }

    /** The body of Update for one pool: every active slot loses dt; those still
        positive stay active in their order, the rest return to the stock. */
    method Expire(dt: real)
      requires Valid()
      modifies this`stockList, this`playingList, this`Model
      ensures Valid()
      ensures Model == Tick(old(Model), dt)
    {
      ghost var p := Model;
      ghost var w := SweepFrom(p.time, p.idle, [], dt);
      var newList: seq<SEInfo> := [];
      var k := 0;
      while k < |playingList|
        modifies this`stockList
        invariant 0 <= k <= |playingList|
        invariant w == SweepFrom(p.time, p.idle, p.active[..k], dt)
        invariant stockList == StockOf(w.time, w.idle, initVolume, attenuate)
        invariant newList == ListOf(w.time, w.kept, initVolume, attenuate)
      {
        var seInfo := playingList[k];
        ExpireStepViews(p, k, dt, initVolume, attenuate);
        seInfo := seInfo.(curTime := seInfo.curTime - dt);
        if seInfo.curTime > 0.0 {
          newList := newList + [seInfo];
        } else {
          // the slot was active, so SortedList.Add never meets a duplicate key
          assert seInfo.index !in stockList;
          stockList := stockList[seInfo.index := seInfo];
        }
        w := SweepFrom(p.time, p.idle, p.active[..k + 1], dt);
        k := k + 1;
      }
      assert p.active[..k] == p.active;
      playingList := newList;
      TickPreservesInv(p, dt);
      Model := Tick(p, dt);
    }
  }

  /** The registry of sound effects. */
  class SoundControl {
    var audioClips: map<string, AudioClipInfo>

    /** Every registered pool is valid, and distinct names own distinct pools. */
    ghost predicate Valid()
      reads this, audioClips.Values
    {
      (forall info :: info in audioClips.Values ==> info.Valid()) &&
      (forall k1, k2 :: k1 in audioClips && k2 in audioClips && k1 != k2 ==>
        audioClips[k1] != audioClips[k2])
    }

    constructor ()
      ensures Valid() && audioClips == map[]
    {
      audioClips := map[];
    }

    /** audioClips.Add(key, info), as the private constructor is meant to do for
        each sound effect. Dictionary.Add throws on a key already present. */
    method Register(key: string, info: AudioClipInfo)
      requires Valid() && info.Valid() && info !in audioClips.Values
      requires key !in audioClips
      modifies this
      ensures Valid() && audioClips == old(audioClips)[key := info]
    {
      audioClips := audioClips[key := info];
    }

    /** One frame: every registered pool expires its voices by dt. */
    method Update(dt: real)
      requires Valid()
      modifies audioClips.Values
      ensures Valid() && audioClips == old(audioClips)
      ensures forall info :: info in audioClips.Values ==>
        info.Model == Tick(old(info.Model), dt) && info.clip == old(info.clip)
    {
      var pending := audioClips.Values;
      while pending != {}
        invariant pending <= audioClips.Values
        invariant forall info :: info in audioClips.Values ==>
          info.Valid() && info.clip == old(info.clip) &&
          info.Model == if info in pending then old(info.Model) else Tick(old(info.Model), dt)
        decreases pending
      {
        var info :| info in pending;
        label before:
        info.Expire(dt);
        pending := pending - {info};
        // the other pools are untouched by this step
        forall other | other in audioClips.Values && other != info
          ensures other.Valid() && other.clip == old(other.clip) &&
            other.Model == if other in pending then old(other.Model) else Tick(old(other.Model), dt)
        {
          assert other.Valid() == old@before(other.Valid());
        }
      }
    }

    /** playSE(seName). `resource` is what Resources.Load returns for the pool's
        resource name; it is used only while the pool's clip is not yet loaded. */
    method PlaySE(seName: string, resource: Option<Clip>) returns (r: PlayOutcome)
      requires Valid()
      modifies audioClips.Values
      ensures Valid() && audioClips == old(audioClips)
      ensures seName !in audioClips ==> r == Returned(false, None) && unchanged(audioClips.Values)
      ensures seName in audioClips ==> audioClips[seName] in audioClips.Values
      ensures seName in audioClips ==>
        var info := audioClips[seName];
        var c := if old(info.clip).Some? then old(info.clip) else resource;
        info.clip == c &&
        (c.None? ==> r == ClipNotLoaded && info.Model == old(info.Model)) &&
        (c.Some? ==>
          var a := VoicePool.Acquire(old(info.Model), c.value.length / 10.0);
          info.Model == a.pool &&
          (a.slot.None? ==> r == Returned(true, None)) &&
          (a.slot.Some? ==>
            r == Returned(true, Some(Sound(c.value, Volume(info.initVolume, info.attenuate, a.slot.value))))))
      ensures forall key :: key in audioClips && key != seName ==> unchanged(audioClips[key])
    {
      if seName !in audioClips {
        return Returned(false, None);
      }
      var info := audioClips[seName];
      label before:
      r := info.Play(resource);
      // the other pools are untouched
      forall other | other in audioClips.Values && other != info
        ensures other.Valid()
      {
        assert other.Valid() == old@before(other.Valid());
      }
    }
  }
}
