/**
 * The haiku dictionary of the nonce expander: 256 words, indexed by a
 * nonce byte. Entry 1 is a line break, and entries 2, 3 and 9 begin with a
 * backspace that deletes the space written after the previous word. The
 * grammar features stored beside each word are used by no operation
 * modelled here and are not kept. The expander's proofs hold for any
 * 256-word table; this one is used only by `Trigg.Expand`.
 */
module TriggDict {
  const BACKSPACE: char := '\U{8}'

  const DICT: seq<string> := [
    "NIL", "\n", "\U{8}:", "\U{8}--", "like", "a", "the", "of", "no", "\U{8}s", "after",
    "before", "at", "in", "on", "under", "above", "below", "arriving", "departing", "going",
    "coming", "creeping", "dancing", "riding", "strutting", "leaping", "leaving", "entering",
    "drifting", "returning", "rising", "falling", "rushing", "soaring", "travelling",
    "turning", "singing", "walking", "crying", "weeping", "lingering", "pausing", "shining",
    "fall", "flow", "wander", "disappear", "wait", "bloom", "doze", "dream", "laugh",
    "meditate", "listen", "sing", "decay", "cling", "grow", "forget", "remain", "arid",
    "abandoned", "aged", "ancient", "full", "glorious", "good", "beautiful", "first", "last",
    "forsaken", "sad", "mandarin", "naked", "nameless", "old", "quiet", "peaceful", "still",
    "tranquil", "bare", "evening", "morning", "afternoon", "spring", "summer", "autumn",
    "winter", "broken", "thick", "thin", "little", "big", "parched", "withered", "worn",
    "soft", "bitter", "bright", "brilliant", "cold", "cool", "crimson", "dark", "frozen",
    "grey", "hard", "hot", "scarlet", "shallow", "sharp", "warm", "close", "calm", "cruel",
    "drowned", "dull", "dead", "sick", "deep", "fast", "fleeting", "fragrant", "fresh", "loud",
    "moonlit", "sacred", "slow", "traveller", "poet", "beggar", "monk", "warrior", "wife",
    "courtesan", "dancer", "daemon", "frog", "hawks", "larks", "cranes", "crows", "ducks",
    "birds", "skylark", "sparrows", "minnows", "snakes", "dog", "monkeys", "cats", "cuckoos",
    "mice", "dragonfly", "butterfly", "firefly", "grasshopper", "mosquitos", "trees", "roses",
    "cherries", "flowers", "lotuses", "plums", "poppies", "violets", "oaks", "pines",
    "chestnuts", "clovers", "leaves", "petals", "thorns", "blossoms", "vines", "willows",
    "mountain", "moor", "sea", "shadow", "skies", "moon", "star", "stone", "cloud", "bridge",
    "gate", "temple", "hovel", "forest", "grave", "stream", "pond", "island", "bell", "boat",
    "sailboat", "bon fire", "straw mat", "cup", "nest", "sun", "village", "tomb", "raindrop",
    "wave", "wind", "tide", "fan", "hat", "sandal", "shroud", "pole", "water", "air", "mud",
    "rain", "thunder", "ice", "snow", "salt", "hail", "mist", "dew", "foam", "frost", "smoke",
    "twilight", "earth", "grass", "bamboo", "gold", "grain", "rice", "tea", "light",
    "darkness", "firelight", "sunlight", "sunshine", "journey", "serenity", "dusk", "glow",
    "scent", "sound", "silence", "voice", "day", "night", "sunrise", "sunset", "midnight",
    "equinox", "noon"
  ]
}
