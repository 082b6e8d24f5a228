/**
 File types, sizes and alignments of the ELF format as the library tabulates them
 (System V gABI, chapter 4), for the 32-bit and the 64-bit class.
 */
module ElfTypes {
  import opened Options

  datatype ElfClass = Elf32 | Elf64

  // The types that section types translate to, and the three header types.
  datatype ElfType = Addr | Byte | Dyn | Ehdr | Move | Note | Phdr | Rel | Rela | Shdr | SymInfo | Sym | Vdef | Vneed | Word

  const SHT_NULL := 0
  const SHT_NOBITS := 8
  const SHN_LORESERVE := 0xff00

  // Size of one object in the file.
  function FSize(t: ElfType, c: ElfClass): (n: nat)
    ensures n >= 1
  {
    match t
    case Addr => if c.Elf32? then 4 else 8
    case Byte => 1
    case Dyn => if c.Elf32? then 8 else 16
    case Ehdr => if c.Elf32? then 52 else 64
    case Move => if c.Elf32? then 20 else 28
    case Note => 1
    case Phdr => if c.Elf32? then 32 else 56
    case Rel => if c.Elf32? then 8 else 16
    case Rela => if c.Elf32? then 12 else 24
    case Shdr => if c.Elf32? then 40 else 64
    case SymInfo => 4
    case Sym => if c.Elf32? then 16 else 24
    case Vdef => 20
    case Vneed => 16
    case Word => 4
  }

  // Size of one object in memory; only Move has padding.
  function MSize(t: ElfType, c: ElfClass): (n: nat)
    ensures n >= FSize(t, c)
  {
    if t.Move? then if c.Elf32? then 24 else 32
    else FSize(t, c)
  }

  function FAlign(t: ElfType, c: ElfClass): (n: nat)
    ensures n in {1, 2, 4, 8}
  {
    match t
    case Byte => 1
    case Note => 4
    case Word => 4
    case Vdef => 4
    case Vneed => 4
    case SymInfo => 2
    case Move => 8
    case _ => if c.Elf32? then 4 else 8
  }

  // The type of a section's data; None for section types the library does not handle.
  function TypeOfSection(sht: nat): Option<ElfType> {
    if sht == 6 then Some(Dyn)
    else if sht == 11 || sht == 2 then Some(Sym)
    else if sht == 14 || sht == 15 || sht == 16 then Some(Addr)
    else if sht == 17 || sht == 5 || sht == 18 then Some(Word)
    else if sht == SHT_NOBITS || sht == 1 || sht == 3 then Some(Byte)
    else if sht == 7 then Some(Note)
    else if sht == 9 then Some(Rel)
    else if sht == 4 then Some(Rela)
    else if sht == 0x6ffffffd then Some(Vdef)
    else if sht == 0x6ffffffe then Some(Vneed)
    else if sht == 0x6ffffffa then Some(Move)
    else if sht == 0x6ffffffc then Some(SymInfo)
    else None
  }
}
