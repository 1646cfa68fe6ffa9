/** The symbol map of the kernel, parsed in place from a file in memory
    (kernel/kernel/symbol.c:53-279). */
module SymbolMap {
  import opened Memory
  import opened CStrings
  import opened NumberText
  import opened Hexadecimal
  import opened SymbolText
  import opened Wrappers

  // parse_line, field by field.  The null bytes that it writes into the file are
  // taken back on every path that returns; a panic does not return.

  /** The optional length. */
  method ParseLen(mem: array<char>, line: nat, name: string, addr: Address) returns (r: Line)
    requires Terminated(mem[..], line)
    ensures r == AfterAddr(name, addr, Str(mem[..], line))
  {
    if mem[line] == NUL {
      return Good(Symbol(name, addr, 0));
    }
    var n := StrLen(mem, line);
    if n > MAX_HEX {
      return Bad;
    }
    var len := Atoh(mem, line);
    return if len.Abort? then Panic else Good(Symbol(name, addr, len.n));
  }

  /** The address, and what follows it. */
  method ParseAddr(mem: array<char>, line: nat, name: string) returns (r: Line)
    requires Terminated(mem[..], line)
    modifies mem
    ensures r == AfterType(name, old(Str(mem[..], line)))
    ensures !r.Panic? ==> mem[..] == old(mem[..])
  {
    hide First;
    hide Read;
    hide Terminated;
    hide Str;
    hide AfterAddr;
    ghost var file := mem[..];
    var ok, sep := StrChr(mem, line, ' ');
    if !ok {
      return Bad;
    }
    StrCut(file, line, sep + 1 - line);
    var fits, addr := ReadField(mem, line, sep);
    if !fits {
      return Bad;
    }
    if addr.Abort? {
      return Panic;
    }
    r := ParseLen(mem, sep + 1, name, addr.n);
  }

  /** Up to eight digits, read while the separator is overwritten. */
  method ReadField(mem: array<char>, line: nat, sep: nat) returns (fits: bool, r: Parsed)
    requires Terminated(mem[..], line) && line <= sep < line + |Str(mem[..], line)| && mem[sep] == ' '
    modifies mem
    ensures fits <==> sep - line <= MAX_HEX
    ensures fits ==> r == Read(0, old(Str(mem[..], line))[..sep - line])
    ensures !fits || r.Parsed? ==> mem[..] == old(mem[..])
  {
    hide Read;
    hide Terminated;
    hide Str;
    ghost var file := mem[..];
    StrCut(file, line, sep - line);
    mem[sep] := NUL;
    assert mem[..] == file[sep := NUL];
    var n := StrLen(mem, line);
    if n > MAX_HEX {
      mem[sep] := ' ';
      assert mem[..] == file;
      return false, Abort;
    }
    r := Atoh(mem, line);
    if r.Abort? {
      return true, r;
    }
    mem[sep] := ' ';
    assert mem[..] == file;
    return true, r;
  }

  /** The type, which is skipped, and what follows it. */
  method ParseType(mem: array<char>, line: nat, name: string) returns (r: Line)
    requires Terminated(mem[..], line)
    modifies mem
    ensures r == AfterName(name, old(Str(mem[..], line)))
    ensures !r.Panic? ==> mem[..] == old(mem[..])
  {
    hide First;
    hide Terminated;
    hide Str;
    hide AfterType;
    var ok, sep := StrChr(mem, line, ' ');
    if !ok {
      return Bad;
    }
    StrCut(mem[..], line, sep + 1 - line);
    r := ParseAddr(mem, sep + 1, name);
  }

  lemma EmptyLine(file: string, p: nat)
    requires Terminated(file, p) && p < |file| && file[p] == NUL
    ensures LineOf(Str(file, p)) == Bad
  {
    StrIs(file, p, "");
  }

  method ParseLine(mem: array<char>, line: nat) returns (r: Line)
    requires Terminated(mem[..], line)
    modifies mem
    ensures r == LineOf(old(Str(mem[..], line)))
    ensures !r.Panic? ==> mem[..] == old(mem[..])
  {
    hide First;
    hide Terminated;
    hide Str;
    hide AfterName;
    StrIsSlice(mem[..], line);
    if mem[line] == NUL {
      EmptyLine(mem[..], line);
      return Bad;
    }
    var ok, sep := StrChr(mem, line, ' ');
    if !ok {
      return Bad;
    }
    StrCut(mem[..], line, sep + 1 - line);
    var fits, name := ReadName(mem, line, sep);
    if !fits {
      return Bad;
    }
    r := ParseType(mem, sep + 1, name);
  }

  /** The name, measured while the separator is overwritten. */
  method ReadName(mem: array<char>, line: nat, sep: nat) returns (fits: bool, name: string)
    requires Terminated(mem[..], line) && line <= sep < line + |Str(mem[..], line)| && mem[sep] == ' '
    modifies mem
    ensures fits <==> 0 < sep - line < SYMBOL_MAX_LEN
    ensures fits ==> name == old(Str(mem[..], line))[..sep - line]
    ensures mem[..] == old(mem[..])
  {
    hide Terminated;
    ghost var file := mem[..];
    StrCut(file, line, sep - line);
    StrIsSlice(file, line);
    hide Str;
    mem[sep] := NUL;
    assert mem[..] == file[sep := NUL];
    var n := StrLen(mem, line);
    fits, name := 0 < n < SYMBOL_MAX_LEN, "";
    if fits {
      name := mem[line..line + n];
    }
    mem[sep] := ' ';
    assert mem[..] == file;
  }

  lemma StrIsSlice(file: string, p: nat)
    requires Terminated(file, p)
    ensures p + |Str(file, p)| < |file| && Str(file, p) == file[p..p + |Str(file, p)|]
  {
  }

  /** A line of the file, ended while it is parsed. */
  method ParseUpTo(mem: array<char>, ptr: nat, eol: nat) returns (r: Line)
    requires Terminated(mem[..], ptr) && ptr <= eol < ptr + |Str(mem[..], ptr)| && mem[eol] == '\n'
    modifies mem
    ensures r == LineOf(old(Str(mem[..], ptr))[..eol - ptr])
    ensures !r.Panic? ==> mem[..] == old(mem[..])
  {
    hide LineOf;
    hide Terminated;
    hide Str;
    ghost var file := mem[..];
    StrCut(file, ptr, eol - ptr);
    mem[eol] := NUL;
    assert mem[..] == file[eol := NUL];
    r := ParseLine(mem, ptr);
    if !r.Panic? {
      mem[eol] := '\n';
      assert mem[..] == file;
    }
  }

  // --------------------------------------------------------------------------
  // The whole file

  /** One step of the counting pass. */
  lemma NextCount(text: string, n: nat)
    requires n > 0
    ensures var k := First(text, 0, '\n');
      if k == |text| then Split(text, n).None?
      else
        var rest := Split(text[k + 1..], if n <= k + 1 then 0 else n - (k + 1));
        && (Split(text, n).Some? <==> rest.Some?)
        && (rest.Some? ==> |Split(text, n).value| == 1 + |rest.value|)
  {
    SplitStep(text, n);
    hide First;
    hide Split;
  }

  /** One step of the parsing pass. */
  lemma NextLine(text: string, n: nat, lines: seq<string>, i: nat)
    requires i <= |lines| && n > 0 && Split(text, n) == Some(lines[i..])
    ensures i < |lines| && First(text, 0, '\n') < |text|
    ensures var k := First(text, 0, '\n');
      lines[i] == text[..k] && Split(text[k + 1..], if n <= k + 1 then 0 else n - (k + 1)) == Some(lines[i + 1..])
  {
    SplitStep(text, n);
    hide First;
    hide Split;
    assert lines[i..][1..] == lines[i + 1..];
  }

  /** The lines of the n bytes at start. */
  ghost function LinesOf(file: string, start: nat, n: nat): (r: Option<seq<string>>)
    requires Terminated(file, start)
    ensures r.Some? && n > 0 ==> |r.value| > 0
  {
    Split(Str(file, start), n)
  }

  lemma NoLines(file: string, start: nat)
    requires Terminated(file, start)
    ensures LinesOf(file, start, 0) == Some([])
  {
  }

  class SymbolMap {
    var nbSyms: nat
    var symbols: array<Symbol>

    constructor ()
      ensures Valid() && nbSyms == 0
    {
      nbSyms := 0;
      symbols := new Symbol[0];
    }

    /** Finds the end of one more line: NextCount on the text, this in memory. */
    method CountNext(mem: array<char>, ptr: nat, n: nat) returns (found: bool, next: nat)
      requires Terminated(mem[..], ptr) && n > 0
      ensures !found ==> LinesOf(mem[..], ptr, n).None?
      ensures found ==> next > ptr && Terminated(mem[..], next)
      ensures found ==>
        var all, rest := LinesOf(mem[..], ptr, n), LinesOf(mem[..], next, if next < ptr + n then ptr + n - next else 0);
        (all.Some? <==> rest.Some?) && (rest.Some? ==> |all.value| == 1 + |rest.value|)
    {
      hide First;
      hide Terminated;
      hide Str;
      hide Split;
      NextCount(Str(mem[..], ptr), n);
      var eol;
      found, eol := StrChr(mem, ptr, '\n');
      next := eol + 1;
      if found {
        StrCut(mem[..], ptr, next - ptr);
      }
    }

    /** The counting pass of symbol_init. */
    method Count(mem: array<char>, start: nat, n: nat) returns (ok: bool)
      requires Terminated(mem[..], start) && n > 0
      modifies `nbSyms
      ensures ok <==> LinesOf(mem[..], start, n).Some?
      ensures ok ==> nbSyms == |LinesOf(mem[..], start, n).value|
    {
      hide Terminated;
      hide LinesOf;
      nbSyms := 0;
      var ptr, end := start, start + n;
      ghost var lines := LinesOf(mem[..], start, n);
      while ptr < end
        invariant start <= ptr && Terminated(mem[..], ptr)
        invariant var rest := LinesOf(mem[..], ptr, if ptr < end then end - ptr else 0);
          (lines.Some? <==> rest.Some?) && (lines.Some? ==> |lines.value| == nbSyms + |rest.value|)
        decreases end - ptr
      {
        var found, next := CountNext(mem, ptr, end - ptr);
        if !found {
          return false;
        }
        nbSyms := nbSyms + 1;
        ptr := next;
      }
      NoLines(mem[..], ptr);
      return true;
    }

    /** The next line: NextLine finds it on the text, this in memory. */
    method ParseNext(mem: array<char>, ptr: nat, n: nat, ghost lines: seq<string>, ghost i: nat)
      returns (line: Line, next: nat)
      requires Terminated(mem[..], ptr) && i <= |lines| && n > 0
      requires LinesOf(mem[..], ptr, n) == Some(lines[i..])
      modifies mem
      ensures i < |lines| && line == LineOf(lines[i]) && next > ptr
      ensures !line.Panic? ==>
        && mem[..] == old(mem[..]) && Terminated(mem[..], next)
        && LinesOf(mem[..], next, if next < ptr + n then ptr + n - next else 0) == Some(lines[i + 1..])
    {
      hide First;
      hide Terminated;
      hide Str;
      hide LineOf;
      hide Split;
      ghost var file := mem[..];
      NextLine(Str(file, ptr), n, lines, i);
      var found, eol := StrChr(mem, ptr, '\n');
      StrCut(file, ptr, eol + 1 - ptr);
      line := ParseUpTo(mem, ptr, eol);
      next := eol + 1;
    }

    /** parse_symbol_map, after the counting pass on the same memory: it finds
        the same lines, so every line has a slot and a line feed. */
    method Parse(mem: array<char>, start: nat, n: nat) returns (r: Verdict)
      requires Terminated(mem[..], start)
      requires n > 0 ==>
        LinesOf(mem[..], start, n).Some? && nbSyms == |LinesOf(mem[..], start, n).value| <= symbols.Length
      modifies mem, symbols
      ensures n == 0 ==> r == Failure
      ensures n > 0 ==>
        var lines := old(LinesOf(mem[..], start, n).value);
        && (r.Success? <==> AllGood(lines))
        && (r.Failure? <==> exists i :: StopsAt(lines, i) && LineOf(lines[i]).Bad?)
        && (r.Panicking? <==> exists i :: StopsAt(lines, i) && LineOf(lines[i]).Panic?)
      ensures r.Success? ==>
        var all := SymbolsOf(old(LinesOf(mem[..], start, n).value));
        all.Symbols? && symbols[..nbSyms] == WithGaps(all.syms)
      ensures !r.Panicking? ==> mem[..] == old(mem[..])
    {
      hide Terminated;
      hide LinesOf;
      hide LineOf;
      hide WithGaps;
      hide SymbolsOf;
      hide Gap;
      NoSymbols();
      if n == 0 || nbSyms == 0 {
        return Failure;
      }
      ghost var file := mem[..];
      ghost var lines := LinesOf(file, start, n).value;
      var ptr, end, i := start, start + n, 0;
      assert lines[..0] == [] && symbols[..0] == [];
      while ptr < end
        invariant start <= ptr && Terminated(file, ptr) && mem[..] == file
        invariant i <= |lines| && LinesOf(file, ptr, if ptr < end then end - ptr else 0) == Some(lines[i..])
        invariant SymbolsOf(lines[..i]).Symbols? && forall k :: 0 <= k < i ==> LineOf(lines[k]).Good?
        invariant symbols[..i] == WithGaps(SymbolsOf(lines[..i]).syms)
        decreases end - ptr
      {
        var line, next := ParseNext(mem, ptr, end - ptr, lines, i);
        SymbolsNext(lines, i);
        if !line.Good? {
          StopsOnce(lines, i);
          return if line.Panic? then Panicking else Failure;
        }
        ghost var syms := SymbolsOf(lines[..i]).syms;
        GapsMore(syms, line.sym);
        Store(i, line.sym, syms);
        i := i + 1;
        ptr := next;
      }
      NoLines(file, ptr);
      assert lines[i..] == [] && lines[..i] == lines;
      if i != nbSyms {
        assert false;  // "oops! something went wrong!"
        return Failure;
      }
      return Success;
    }

    /** Puts a symbol into its slot and closes the gap of the one before it. */
    method Store(i: nat, sym: Symbol, ghost syms: seq<Symbol>)
      requires i == |syms| < symbols.Length && symbols[..i] == WithGaps(syms)
      modifies symbols
      ensures symbols[..i + 1] == WithGaps(syms + [sym])
    {
      symbols[i] := sym;
      if i > 0 {
        symbols[i - 1] := symbols[i - 1].(len := Gap(symbols[i - 1].addr, sym.addr));
      }
    }

    /** symbol_init.  The file is absent when mem is null; gotMemory is the
        answer of kmalloc. */
    method Init(mem: array?<char>, start: nat, n: nat, gotMemory: bool) returns (r: Verdict)
      requires Valid() && (mem != null ==> Terminated(mem[..], start))
      modifies this, mem
      ensures !r.Panicking? ==> Valid()
      ensures mem == null || n == 0 ==> r == Failure && nbSyms == old(nbSyms)
      ensures mem != null && n > 0 ==>
        var lines := old(LinesOf(mem[..], start, n));
        && (r.Success? <==> lines.Some? && gotMemory && AllGood(lines.value))
        && (r.Failure? <==>
              lines.None? || (gotMemory && exists i :: StopsAt(lines.value, i) && LineOf(lines.value[i]).Bad?))
        && (r.Panicking? <==>
              && lines.Some?
              && (!gotMemory || exists i :: StopsAt(lines.value, i) && LineOf(lines.value[i]).Panic?))
      ensures mem != null && n > 0 && r.Failure? ==> nbSyms == 0
      ensures r.Success? ==>
        var all := SymbolsOf(old(LinesOf(mem[..], start, n)).value);
        all.Symbols? && Loaded() == WithGaps(all.syms)
      ensures mem != null && !r.Panicking? ==> mem[..] == old(mem[..])
    {
      hide WithGaps;
      hide SymbolsOf;
      hide LinesOf;
      if mem == null || n == 0 {
        return Failure;
      }
      var ok := Count(mem, start, n);
      if !ok {
        nbSyms := 0;
        return Failure;
      }
      if !gotMemory {
        return Panicking;  // NOT_IMPLEMENTED
      }
      symbols := new Symbol[nbSyms];
      r := Parse(mem, start, n);
      if r.Failure? {
        nbSyms := 0;
      }
    }

    ghost predicate Valid()
      reads this
    {
      nbSyms <= symbols.Length
    }

    ghost function Loaded(): seq<Symbol>
      requires Valid()
      reads this, symbols
    {
      symbols[..nbSyms]
    }

    /** symbol_find, for a destination that is not null. */
    method Find(addr: Address) returns (r: Option<Symbol>)
      requires Valid()
      ensures r == if addr == 0 then None else Found(Loaded(), addr)
    {
      if addr == 0 || nbSyms == 0 {
        return None;
      }
      var last: Option<Symbol> := None;
      PassedFrom(Loaded(), addr, nbSyms);
      assert Loaded()[0..] == Loaded();
      hide Passed;
      for i := 0 to nbSyms
        invariant Passed(Loaded(), addr) == i + Passed(Loaded()[i..], addr)
        invariant last == if i == 0 then None else Some(symbols[i - 1])
      {
        PassedFrom(Loaded(), addr, i);
        assert Loaded()[i] == symbols[i];
        if symbols[i].addr > addr {
          break;
        }
        last := Some(symbols[i]);
      }
      if last.Some? {
        if last.value.len > 0 && (addr < last.value.addr || addr >= Sum32(last.value.addr, last.value.len)) {
          return None;
        }
      }
      return last;
    }
  }

  lemma PassedFrom(syms: seq<Symbol>, addr: Address, i: nat)
    requires i <= |syms|
    ensures Passed(syms[i..], addr) ==
            if i == |syms| || syms[i].addr > addr then 0 else 1 + Passed(syms[i + 1..], addr)
  {
    if i < |syms| {
      assert syms[i..][0] == syms[i] && syms[i..][1..] == syms[i + 1..];
    }
  }

  datatype Verdict = Success | Failure | Panicking

  lemma NoSymbols()
    ensures WithGaps([]) == [] && SymbolsOf([]) == Symbols([])
  {
  }

  lemma SymbolsNext(lines: seq<string>, i: nat)
    requires i < |lines| && SymbolsOf(lines[..i]).Symbols?
    ensures SymbolsOf(lines[..i + 1]) ==
            match LineOf(lines[i])
            case Bad => Failed
            case Panic => Panicked
            case Good(sym) => Symbols(SymbolsOf(lines[..i]).syms + [sym])
  {
    hide LineOf;
    assert lines[..i + 1][..i] == lines[..i];
  }

  /** The map of these entries is in memory, with anything behind it. */
  ghost predicate Written(file: string, start: nat, n: nat, es: seq<Entry>, small: bool) {
    && Terminated(file, start) && (forall k :: 0 <= k < |es| ==> Writable(es[k]))
    && start + n <= |file| && file[start..start + n] == Join(WriteAll(es, small))
  }

  lemma {:induction false} JoinHas(lines: seq<string>, c: char)
    requires c != '\n' && forall i :: 0 <= i < |lines| ==> c !in lines[i]
    ensures c !in Join(lines)
  {
    if lines != [] {
      JoinHas(lines[1..], c);
    }
  }

  /** The lines of a written map are the ones that were written. */
  lemma WrittenLines(file: string, start: nat, n: nat, es: seq<Entry>, small: bool)
    requires Written(file, start, n, es, small)
    ensures LinesOf(file, start, n) == Some(WriteAll(es, small)) && AllGood(WriteAll(es, small))
  {
    hide Write;
    hide LineOf;
    hide Split;
    hide First;
    hide Writable;
    var lines, text := WriteAll(es, small), Join(WriteAll(es, small));
    forall i | 0 <= i < |lines|
      ensures NUL !in lines[i] && LineOf(lines[i]).Good?
    {
      WriteIsRead(es[i], small);
    }
    JoinHas(lines, NUL);
    hide Join;
    hide WriteAll;
    var all := Str(file, start);
    forall k | start <= k < start + n ensures file[k] != NUL { assert file[k] == text[k - start]; }
    assert n <= |all| && all == text + all[n..];
    MapIsRead(es, small, all[n..]);
  }

  /** symbol_init on a written map and then symbol_find on the loaded symbols:
      every address of the map gives its symbol. */
  method LoadAndFind(map_: SymbolMap, mem: array<char>, start: nat, n: nat, gotMemory: bool, addr: Address,
                     ghost es: seq<Entry>, ghost small: bool, ghost i: nat)
    returns (r: Verdict, found: Option<Symbol>)
    requires map_.Valid() && Written(mem[..], start, n, es, small)
    requires forall j, k :: 0 <= j < k < |es| ==> es[j].addr <= es[k].addr
    requires i < |es| && es[i].addr <= addr && (i + 1 < |es| ==> addr < es[i + 1].addr)
    modifies map_, mem
    ensures r == if gotMemory then Success else Panicking
    ensures r.Success? ==> mem[..] == old(mem[..]) && map_.Valid() && map_.nbSyms == |es|
    ensures r.Success? ==> found == if addr == 0 then None else Answer(es, i, addr)
  {
    hide Written;
    hide LinesOf;
    hide LineOf;
    hide SymbolsOf;
    hide WithGaps;
    hide Found;
    hide WriteAll;
    hide Answer;
    ghost var lines := WriteAll(es, small);
    WrittenLines(mem[..], start, n, es, small);
    WrittenIs(mem[..], start, n, es, small);
    WrittenMapFinds(es, small, "", addr, i);
    r := map_.Init(mem, start, n, gotMemory);
    found := None;
    if r.Success? {
      found := map_.Find(addr);
    }
  }

  lemma WrittenIs(file: string, start: nat, n: nat, es: seq<Entry>, small: bool)
    requires Written(file, start, n, es, small) && es != []
    ensures Terminated(file, start) && n > 0 && forall k :: 0 <= k < |es| ==> Writable(es[k])
  {
    assert Join(WriteAll(es, small)) != "";
  }
}
