/** The exp and log tables of the QR code field, as the field's constructor
  * fills them (exp[0] = 1, each next entry the previous one doubled and
  * reduced by the primitive polynomial 0x011D; log the inverse of exp, with
  * log[0] left at 0), and the proof that they form a valid `GF256.Field`. */
module GF256Tables {
  import opened Bits
  import opened GF256

  /** expTable[i], i.e. 2^i in the field. */
  function ExpEntry(i: Byte): (r: Byte)
    ensures r != 0
  {
    if i < 128 then
      if i < 64 then
        if i < 32 then
          if i < 16 then
            if i < 8 then
              if i < 4 then
                if i < 2 then
                  if i < 1 then
                    1
                  else
                    2
                else
                  if i < 3 then
                    4
                  else
                    8
              else
                if i < 6 then
                  if i < 5 then
                    16
                  else
                    32
                else
                  if i < 7 then
                    64
                  else
                    128
            else
              if i < 12 then
                if i < 10 then
                  if i < 9 then
                    29
                  else
                    58
                else
                  if i < 11 then
                    116
                  else
                    232
              else
                if i < 14 then
                  if i < 13 then
                    205
                  else
                    135
                else
                  if i < 15 then
                    19
                  else
                    38
          else
            if i < 24 then
              if i < 20 then
                if i < 18 then
                  if i < 17 then
                    76
                  else
                    152
                else
                  if i < 19 then
                    45
                  else
                    90
              else
                if i < 22 then
                  if i < 21 then
                    180
                  else
                    117
                else
                  if i < 23 then
                    234
                  else
                    201
            else
              if i < 28 then
                if i < 26 then
                  if i < 25 then
                    143
                  else
                    3
                else
                  if i < 27 then
                    6
                  else
                    12
              else
                if i < 30 then
                  if i < 29 then
                    24
                  else
                    48
                else
                  if i < 31 then
                    96
                  else
                    192
        else
          if i < 48 then
            if i < 40 then
              if i < 36 then
                if i < 34 then
                  if i < 33 then
                    157
                  else
                    39
                else
                  if i < 35 then
                    78
                  else
                    156
              else
                if i < 38 then
                  if i < 37 then
                    37
                  else
                    74
                else
                  if i < 39 then
                    148
                  else
                    53
            else
              if i < 44 then
                if i < 42 then
                  if i < 41 then
                    106
                  else
                    212
                else
                  if i < 43 then
                    181
                  else
                    119
              else
                if i < 46 then
                  if i < 45 then
                    238
                  else
                    193
                else
                  if i < 47 then
                    159
                  else
                    35
          else
            if i < 56 then
              if i < 52 then
                if i < 50 then
                  if i < 49 then
                    70
                  else
                    140
                else
                  if i < 51 then
                    5
                  else
                    10
              else
                if i < 54 then
                  if i < 53 then
                    20
                  else
                    40
                else
                  if i < 55 then
                    80
                  else
                    160
            else
              if i < 60 then
                if i < 58 then
                  if i < 57 then
                    93
                  else
                    186
                else
                  if i < 59 then
                    105
                  else
                    210
              else
                if i < 62 then
                  if i < 61 then
                    185
                  else
                    111
                else
                  if i < 63 then
                    222
                  else
                    161
      else
        if i < 96 then
          if i < 80 then
            if i < 72 then
              if i < 68 then
                if i < 66 then
                  if i < 65 then
                    95
                  else
                    190
                else
                  if i < 67 then
                    97
                  else
                    194
              else
                if i < 70 then
                  if i < 69 then
                    153
                  else
                    47
                else
                  if i < 71 then
                    94
                  else
                    188
            else
              if i < 76 then
                if i < 74 then
                  if i < 73 then
                    101
                  else
                    202
                else
                  if i < 75 then
                    137
                  else
                    15
              else
                if i < 78 then
                  if i < 77 then
                    30
                  else
                    60
                else
                  if i < 79 then
                    120
                  else
                    240
          else
            if i < 88 then
              if i < 84 then
                if i < 82 then
                  if i < 81 then
                    253
                  else
                    231
                else
                  if i < 83 then
                    211
                  else
                    187
              else
                if i < 86 then
                  if i < 85 then
                    107
                  else
                    214
                else
                  if i < 87 then
                    177
                  else
                    127
            else
              if i < 92 then
                if i < 90 then
                  if i < 89 then
                    254
                  else
                    225
                else
                  if i < 91 then
                    223
                  else
                    163
              else
                if i < 94 then
                  if i < 93 then
                    91
                  else
                    182
                else
                  if i < 95 then
                    113
                  else
                    226
        else
          if i < 112 then
            if i < 104 then
              if i < 100 then
                if i < 98 then
                  if i < 97 then
                    217
                  else
                    175
                else
                  if i < 99 then
                    67
                  else
                    134
              else
                if i < 102 then
                  if i < 101 then
                    17
                  else
                    34
                else
                  if i < 103 then
                    68
                  else
                    136
            else
              if i < 108 then
                if i < 106 then
                  if i < 105 then
                    13
                  else
                    26
                else
                  if i < 107 then
                    52
                  else
                    104
              else
                if i < 110 then
                  if i < 109 then
                    208
                  else
                    189
                else
                  if i < 111 then
                    103
                  else
                    206
          else
            if i < 120 then
              if i < 116 then
                if i < 114 then
                  if i < 113 then
                    129
                  else
                    31
                else
                  if i < 115 then
                    62
                  else
                    124
              else
                if i < 118 then
                  if i < 117 then
                    248
                  else
                    237
                else
                  if i < 119 then
                    199
                  else
                    147
            else
              if i < 124 then
                if i < 122 then
                  if i < 121 then
                    59
                  else
                    118
                else
                  if i < 123 then
                    236
                  else
                    197
              else
                if i < 126 then
                  if i < 125 then
                    151
                  else
                    51
                else
                  if i < 127 then
                    102
                  else
                    204
    else
      if i < 192 then
        if i < 160 then
          if i < 144 then
            if i < 136 then
              if i < 132 then
                if i < 130 then
                  if i < 129 then
                    133
                  else
                    23
                else
                  if i < 131 then
                    46
                  else
                    92
              else
                if i < 134 then
                  if i < 133 then
                    184
                  else
                    109
                else
                  if i < 135 then
                    218
                  else
                    169
            else
              if i < 140 then
                if i < 138 then
                  if i < 137 then
                    79
                  else
                    158
                else
                  if i < 139 then
                    33
                  else
                    66
              else
                if i < 142 then
                  if i < 141 then
                    132
                  else
                    21
                else
                  if i < 143 then
                    42
                  else
                    84
          else
            if i < 152 then
              if i < 148 then
                if i < 146 then
                  if i < 145 then
                    168
                  else
                    77
                else
                  if i < 147 then
                    154
                  else
                    41
              else
                if i < 150 then
                  if i < 149 then
                    82
                  else
                    164
                else
                  if i < 151 then
                    85
                  else
                    170
            else
              if i < 156 then
                if i < 154 then
                  if i < 153 then
                    73
                  else
                    146
                else
                  if i < 155 then
                    57
                  else
                    114
              else
                if i < 158 then
                  if i < 157 then
                    228
                  else
                    213
                else
                  if i < 159 then
                    183
                  else
                    115
        else
          if i < 176 then
            if i < 168 then
              if i < 164 then
                if i < 162 then
                  if i < 161 then
                    230
                  else
                    209
                else
                  if i < 163 then
                    191
                  else
                    99
              else
                if i < 166 then
                  if i < 165 then
                    198
                  else
                    145
                else
                  if i < 167 then
                    63
                  else
                    126
            else
              if i < 172 then
                if i < 170 then
                  if i < 169 then
                    252
                  else
                    229
                else
                  if i < 171 then
                    215
                  else
                    179
              else
                if i < 174 then
                  if i < 173 then
                    123
                  else
                    246
                else
                  if i < 175 then
                    241
                  else
                    255
          else
            if i < 184 then
              if i < 180 then
                if i < 178 then
                  if i < 177 then
                    227
                  else
                    219
                else
                  if i < 179 then
                    171
                  else
                    75
              else
                if i < 182 then
                  if i < 181 then
                    150
                  else
                    49
                else
                  if i < 183 then
                    98
                  else
                    196
            else
              if i < 188 then
                if i < 186 then
                  if i < 185 then
                    149
                  else
                    55
                else
                  if i < 187 then
                    110
                  else
                    220
              else
                if i < 190 then
                  if i < 189 then
                    165
                  else
                    87
                else
                  if i < 191 then
                    174
                  else
                    65
      else
        if i < 224 then
          if i < 208 then
            if i < 200 then
              if i < 196 then
                if i < 194 then
                  if i < 193 then
                    130
                  else
                    25
                else
                  if i < 195 then
                    50
                  else
                    100
              else
                if i < 198 then
                  if i < 197 then
                    200
                  else
                    141
                else
                  if i < 199 then
                    7
                  else
                    14
            else
              if i < 204 then
                if i < 202 then
                  if i < 201 then
                    28
                  else
                    56
                else
                  if i < 203 then
                    112
                  else
                    224
              else
                if i < 206 then
                  if i < 205 then
                    221
                  else
                    167
                else
                  if i < 207 then
                    83
                  else
                    166
          else
            if i < 216 then
              if i < 212 then
                if i < 210 then
                  if i < 209 then
                    81
                  else
                    162
                else
                  if i < 211 then
                    89
                  else
                    178
              else
                if i < 214 then
                  if i < 213 then
                    121
                  else
                    242
                else
                  if i < 215 then
                    249
                  else
                    239
            else
              if i < 220 then
                if i < 218 then
                  if i < 217 then
                    195
                  else
                    155
                else
                  if i < 219 then
                    43
                  else
                    86
              else
                if i < 222 then
                  if i < 221 then
                    172
                  else
                    69
                else
                  if i < 223 then
                    138
                  else
                    9
        else
          if i < 240 then
            if i < 232 then
              if i < 228 then
                if i < 226 then
                  if i < 225 then
                    18
                  else
                    36
                else
                  if i < 227 then
                    72
                  else
                    144
              else
                if i < 230 then
                  if i < 229 then
                    61
                  else
                    122
                else
                  if i < 231 then
                    244
                  else
                    245
            else
              if i < 236 then
                if i < 234 then
                  if i < 233 then
                    247
                  else
                    243
                else
                  if i < 235 then
                    251
                  else
                    235
              else
                if i < 238 then
                  if i < 237 then
                    203
                  else
                    139
                else
                  if i < 239 then
                    11
                  else
                    22
          else
            if i < 248 then
              if i < 244 then
                if i < 242 then
                  if i < 241 then
                    44
                  else
                    88
                else
                  if i < 243 then
                    176
                  else
                    125
              else
                if i < 246 then
                  if i < 245 then
                    250
                  else
                    233
                else
                  if i < 247 then
                    207
                  else
                    131
            else
              if i < 252 then
                if i < 250 then
                  if i < 249 then
                    27
                  else
                    54
                else
                  if i < 251 then
                    108
                  else
                    216
              else
                if i < 254 then
                  if i < 253 then
                    173
                  else
                    71
                else
                  if i < 255 then
                    142
                  else
                    1
  }

  /** logTable[v]: the exponent of v, and 0 for v == 0. */
  function LogEntry(v: Byte): (r: int)
    ensures 0 <= r < 255
  {
    if v < 128 then
      if v < 64 then
        if v < 32 then
          if v < 16 then
            if v < 8 then
              if v < 4 then
                if v < 2 then
                  if v < 1 then
                    0
                  else
                    0
                else
                  if v < 3 then
                    1
                  else
                    25
              else
                if v < 6 then
                  if v < 5 then
                    2
                  else
                    50
                else
                  if v < 7 then
                    26
                  else
                    198
            else
              if v < 12 then
                if v < 10 then
                  if v < 9 then
                    3
                  else
                    223
                else
                  if v < 11 then
                    51
                  else
                    238
              else
                if v < 14 then
                  if v < 13 then
                    27
                  else
                    104
                else
                  if v < 15 then
                    199
                  else
                    75
          else
            if v < 24 then
              if v < 20 then
                if v < 18 then
                  if v < 17 then
                    4
                  else
                    100
                else
                  if v < 19 then
                    224
                  else
                    14
              else
                if v < 22 then
                  if v < 21 then
                    52
                  else
                    141
                else
                  if v < 23 then
                    239
                  else
                    129
            else
              if v < 28 then
                if v < 26 then
                  if v < 25 then
                    28
                  else
                    193
                else
                  if v < 27 then
                    105
                  else
                    248
              else
                if v < 30 then
                  if v < 29 then
                    200
                  else
                    8
                else
                  if v < 31 then
                    76
                  else
                    113
        else
          if v < 48 then
            if v < 40 then
              if v < 36 then
                if v < 34 then
                  if v < 33 then
                    5
                  else
                    138
                else
                  if v < 35 then
                    101
                  else
                    47
              else
                if v < 38 then
                  if v < 37 then
                    225
                  else
                    36
                else
                  if v < 39 then
                    15
                  else
                    33
            else
              if v < 44 then
                if v < 42 then
                  if v < 41 then
                    53
                  else
                    147
                else
                  if v < 43 then
                    142
                  else
                    218
              else
                if v < 46 then
                  if v < 45 then
                    240
                  else
                    18
                else
                  if v < 47 then
                    130
                  else
                    69
          else
            if v < 56 then
              if v < 52 then
                if v < 50 then
                  if v < 49 then
                    29
                  else
                    181
                else
                  if v < 51 then
                    194
                  else
                    125
              else
                if v < 54 then
                  if v < 53 then
                    106
                  else
                    39
                else
                  if v < 55 then
                    249
                  else
                    185
            else
              if v < 60 then
                if v < 58 then
                  if v < 57 then
                    201
                  else
                    154
                else
                  if v < 59 then
                    9
                  else
                    120
              else
                if v < 62 then
                  if v < 61 then
                    77
                  else
                    228
                else
                  if v < 63 then
                    114
                  else
                    166
      else
        if v < 96 then
          if v < 80 then
            if v < 72 then
              if v < 68 then
                if v < 66 then
                  if v < 65 then
                    6
                  else
                    191
                else
                  if v < 67 then
                    139
                  else
                    98
              else
                if v < 70 then
                  if v < 69 then
                    102
                  else
                    221
                else
                  if v < 71 then
                    48
                  else
                    253
            else
              if v < 76 then
                if v < 74 then
                  if v < 73 then
                    226
                  else
                    152
                else
                  if v < 75 then
                    37
                  else
                    179
              else
                if v < 78 then
                  if v < 77 then
                    16
                  else
                    145
                else
                  if v < 79 then
                    34
                  else
                    136
          else
            if v < 88 then
              if v < 84 then
                if v < 82 then
                  if v < 81 then
                    54
                  else
                    208
                else
                  if v < 83 then
                    148
                  else
                    206
              else
                if v < 86 then
                  if v < 85 then
                    143
                  else
                    150
                else
                  if v < 87 then
                    219
                  else
                    189
            else
              if v < 92 then
                if v < 90 then
                  if v < 89 then
                    241
                  else
                    210
                else
                  if v < 91 then
                    19
                  else
                    92
              else
                if v < 94 then
                  if v < 93 then
                    131
                  else
                    56
                else
                  if v < 95 then
                    70
                  else
                    64
        else
          if v < 112 then
            if v < 104 then
              if v < 100 then
                if v < 98 then
                  if v < 97 then
                    30
                  else
                    66
                else
                  if v < 99 then
                    182
                  else
                    163
              else
                if v < 102 then
                  if v < 101 then
                    195
                  else
                    72
                else
                  if v < 103 then
                    126
                  else
                    110
            else
              if v < 108 then
                if v < 106 then
                  if v < 105 then
                    107
                  else
                    58
                else
                  if v < 107 then
                    40
                  else
                    84
              else
                if v < 110 then
                  if v < 109 then
                    250
                  else
                    133
                else
                  if v < 111 then
                    186
                  else
                    61
          else
            if v < 120 then
              if v < 116 then
                if v < 114 then
                  if v < 113 then
                    202
                  else
                    94
                else
                  if v < 115 then
                    155
                  else
                    159
              else
                if v < 118 then
                  if v < 117 then
                    10
                  else
                    21
                else
                  if v < 119 then
                    121
                  else
                    43
            else
              if v < 124 then
                if v < 122 then
                  if v < 121 then
                    78
                  else
                    212
                else
                  if v < 123 then
                    229
                  else
                    172
              else
                if v < 126 then
                  if v < 125 then
                    115
                  else
                    243
                else
                  if v < 127 then
                    167
                  else
                    87
    else
      if v < 192 then
        if v < 160 then
          if v < 144 then
            if v < 136 then
              if v < 132 then
                if v < 130 then
                  if v < 129 then
                    7
                  else
                    112
                else
                  if v < 131 then
                    192
                  else
                    247
              else
                if v < 134 then
                  if v < 133 then
                    140
                  else
                    128
                else
                  if v < 135 then
                    99
                  else
                    13
            else
              if v < 140 then
                if v < 138 then
                  if v < 137 then
                    103
                  else
                    74
                else
                  if v < 139 then
                    222
                  else
                    237
              else
                if v < 142 then
                  if v < 141 then
                    49
                  else
                    197
                else
                  if v < 143 then
                    254
                  else
                    24
          else
            if v < 152 then
              if v < 148 then
                if v < 146 then
                  if v < 145 then
                    227
                  else
                    165
                else
                  if v < 147 then
                    153
                  else
                    119
              else
                if v < 150 then
                  if v < 149 then
                    38
                  else
                    184
                else
                  if v < 151 then
                    180
                  else
                    124
            else
              if v < 156 then
                if v < 154 then
                  if v < 153 then
                    17
                  else
                    68
                else
                  if v < 155 then
                    146
                  else
                    217
              else
                if v < 158 then
                  if v < 157 then
                    35
                  else
                    32
                else
                  if v < 159 then
                    137
                  else
                    46
        else
          if v < 176 then
            if v < 168 then
              if v < 164 then
                if v < 162 then
                  if v < 161 then
                    55
                  else
                    63
                else
                  if v < 163 then
                    209
                  else
                    91
              else
                if v < 166 then
                  if v < 165 then
                    149
                  else
                    188
                else
                  if v < 167 then
                    207
                  else
                    205
            else
              if v < 172 then
                if v < 170 then
                  if v < 169 then
                    144
                  else
                    135
                else
                  if v < 171 then
                    151
                  else
                    178
              else
                if v < 174 then
                  if v < 173 then
                    220
                  else
                    252
                else
                  if v < 175 then
                    190
                  else
                    97
          else
            if v < 184 then
              if v < 180 then
                if v < 178 then
                  if v < 177 then
                    242
                  else
                    86
                else
                  if v < 179 then
                    211
                  else
                    171
              else
                if v < 182 then
                  if v < 181 then
                    20
                  else
                    42
                else
                  if v < 183 then
                    93
                  else
                    158
            else
              if v < 188 then
                if v < 186 then
                  if v < 185 then
                    132
                  else
                    60
                else
                  if v < 187 then
                    57
                  else
                    83
              else
                if v < 190 then
                  if v < 189 then
                    71
                  else
                    109
                else
                  if v < 191 then
                    65
                  else
                    162
      else
        if v < 224 then
          if v < 208 then
            if v < 200 then
              if v < 196 then
                if v < 194 then
                  if v < 193 then
                    31
                  else
                    45
                else
                  if v < 195 then
                    67
                  else
                    216
              else
                if v < 198 then
                  if v < 197 then
                    183
                  else
                    123
                else
                  if v < 199 then
                    164
                  else
                    118
            else
              if v < 204 then
                if v < 202 then
                  if v < 201 then
                    196
                  else
                    23
                else
                  if v < 203 then
                    73
                  else
                    236
              else
                if v < 206 then
                  if v < 205 then
                    127
                  else
                    12
                else
                  if v < 207 then
                    111
                  else
                    246
          else
            if v < 216 then
              if v < 212 then
                if v < 210 then
                  if v < 209 then
                    108
                  else
                    161
                else
                  if v < 211 then
                    59
                  else
                    82
              else
                if v < 214 then
                  if v < 213 then
                    41
                  else
                    157
                else
                  if v < 215 then
                    85
                  else
                    170
            else
              if v < 220 then
                if v < 218 then
                  if v < 217 then
                    251
                  else
                    96
                else
                  if v < 219 then
                    134
                  else
                    177
              else
                if v < 222 then
                  if v < 221 then
                    187
                  else
                    204
                else
                  if v < 223 then
                    62
                  else
                    90
        else
          if v < 240 then
            if v < 232 then
              if v < 228 then
                if v < 226 then
                  if v < 225 then
                    203
                  else
                    89
                else
                  if v < 227 then
                    95
                  else
                    176
              else
                if v < 230 then
                  if v < 229 then
                    156
                  else
                    169
                else
                  if v < 231 then
                    160
                  else
                    81
            else
              if v < 236 then
                if v < 234 then
                  if v < 233 then
                    11
                  else
                    245
                else
                  if v < 235 then
                    22
                  else
                    235
              else
                if v < 238 then
                  if v < 237 then
                    122
                  else
                    117
                else
                  if v < 239 then
                    44
                  else
                    215
          else
            if v < 248 then
              if v < 244 then
                if v < 242 then
                  if v < 241 then
                    79
                  else
                    174
                else
                  if v < 243 then
                    213
                  else
                    233
              else
                if v < 246 then
                  if v < 245 then
                    230
                  else
                    231
                else
                  if v < 247 then
                    173
                  else
                    232
            else
              if v < 252 then
                if v < 250 then
                  if v < 249 then
                    116
                  else
                    214
                else
                  if v < 251 then
                    244
                  else
                    234
              else
                if v < 254 then
                  if v < 253 then
                    168
                  else
                    80
                else
                  if v < 255 then
                    88
                  else
                    175
  }

  /** The low five bits of an even r, xored with those of 0x1D. */
  function Xor1D(r: nat): nat
  {
    if r == 0 then 29 else if r == 2 then 31 else if r == 4 then 25 else if r == 6 then 27 else if r == 8 then 21 else if r == 10 then 23 else if r == 12 then 17 else if r == 14 then 19 else if r == 16 then 13 else if r == 18 then 15 else if r == 20 then 9 else if r == 22 then 11 else if r == 24 then 5 else if r == 26 then 7 else if r == 28 then 1 else if r == 30 then 3 else 0
  }

  lemma {:induction false} Xor1DFacts0()
    ensures Xor(0, 0x1D) == 29
    ensures Xor(2, 0x1D) == 31
    ensures Xor(4, 0x1D) == 25
    ensures Xor(6, 0x1D) == 27
  {
    assert Xor(1, 14) == 15;
    assert Xor(2, 29) == 31;
    assert Xor(1, 7) == 6;
    assert Xor(2, 14) == 12;
    assert Xor(4, 29) == 25;
    assert Xor(1, 7) == 6;
    assert Xor(3, 14) == 13;
    assert Xor(6, 29) == 27;
  }

  lemma {:induction false} Xor1DFacts1()
    ensures Xor(8, 0x1D) == 21
    ensures Xor(10, 0x1D) == 23
    ensures Xor(12, 0x1D) == 17
    ensures Xor(14, 0x1D) == 19
  {
    assert Xor(1, 3) == 2;
    assert Xor(2, 7) == 5;
    assert Xor(4, 14) == 10;
    assert Xor(8, 29) == 21;
    assert Xor(1, 3) == 2;
    assert Xor(2, 7) == 5;
    assert Xor(5, 14) == 11;
    assert Xor(10, 29) == 23;
    assert Xor(1, 3) == 2;
    assert Xor(3, 7) == 4;
    assert Xor(6, 14) == 8;
    assert Xor(12, 29) == 17;
    assert Xor(1, 3) == 2;
    assert Xor(3, 7) == 4;
    assert Xor(7, 14) == 9;
    assert Xor(14, 29) == 19;
  }

  lemma {:induction false} Xor1DFacts2()
    ensures Xor(16, 0x1D) == 13
    ensures Xor(18, 0x1D) == 15
    ensures Xor(20, 0x1D) == 9
    ensures Xor(22, 0x1D) == 11
  {
    assert Xor(1, 1) == 0;
    assert Xor(2, 3) == 1;
    assert Xor(4, 7) == 3;
    assert Xor(8, 14) == 6;
    assert Xor(16, 29) == 13;
    assert Xor(1, 1) == 0;
    assert Xor(2, 3) == 1;
    assert Xor(4, 7) == 3;
    assert Xor(9, 14) == 7;
    assert Xor(18, 29) == 15;
    assert Xor(1, 1) == 0;
    assert Xor(2, 3) == 1;
    assert Xor(5, 7) == 2;
    assert Xor(10, 14) == 4;
    assert Xor(20, 29) == 9;
    assert Xor(1, 1) == 0;
    assert Xor(2, 3) == 1;
    assert Xor(5, 7) == 2;
    assert Xor(11, 14) == 5;
    assert Xor(22, 29) == 11;
  }

  lemma {:induction false} Xor1DFacts3()
    ensures Xor(24, 0x1D) == 5
    ensures Xor(26, 0x1D) == 7
    ensures Xor(28, 0x1D) == 1
    ensures Xor(30, 0x1D) == 3
  {
    assert Xor(1, 1) == 0;
    assert Xor(3, 3) == 0;
    assert Xor(6, 7) == 1;
    assert Xor(12, 14) == 2;
    assert Xor(24, 29) == 5;
    assert Xor(1, 1) == 0;
    assert Xor(3, 3) == 0;
    assert Xor(6, 7) == 1;
    assert Xor(13, 14) == 3;
    assert Xor(26, 29) == 7;
    assert Xor(1, 1) == 0;
    assert Xor(3, 3) == 0;
    assert Xor(7, 7) == 0;
    assert Xor(14, 14) == 0;
    assert Xor(28, 29) == 1;
    assert Xor(1, 1) == 0;
    assert Xor(3, 3) == 0;
    assert Xor(7, 7) == 0;
    assert Xor(15, 14) == 1;
    assert Xor(30, 29) == 3;
  }

  lemma {:induction false} Xor1DCorrect(r: nat)
    requires r < 32 && r % 2 == 0
    ensures Xor1D(r) == Xor(r, 0x1D)
  {
    Xor1DFacts0();
    Xor1DFacts1();
    Xor1DFacts2();
    Xor1DFacts3();
  }

  /** Doubling a byte with its top bit set, given 2x - 256 split as 32q + r:
    * the ninth bits cancel, and xor with 0x1D changes only the low five bits. */
  lemma {:induction false} XTimeHighAt(x: Byte, q: nat, r: nat, t: nat)
    requires x >= 128 && 2 * x - 256 == 32 * q + r && r < 32 && r % 2 == 0 && Xor1D(r) == t
    ensures XTime(x) == 32 * q + t
  {
    var u := 2 * x - 256;
    NinthBitCancels(u);
    LowBitsXor(q, r);
    Xor1DCorrect(r);
  }

  lemma {:induction false} NinthBitCancels(u: nat)
    requires u < 256
    ensures Xor(256 + u, PRIMITIVE) == Xor(u, 0x1D)
  {
    Pow2Of8();
    LowBitsZero256();
    XorDisjoint(256, u, 8);
    XorDisjoint(256, 0x1D, 8);
    XorSwapMiddle(256, u, 256, 0x1D);
    XorSelf(256);
    XorZero(Xor(u, 0x1D));
  }

  lemma {:induction false} LowBitsXor(q: nat, r: nat)
    requires r < 32
    ensures Xor(32 * q + r, 0x1D) == 32 * q + Xor(r, 0x1D)
  {
    Pow2Of5();
    LowBitsZero32(q);
    XorDisjoint(32 * q, r, 5);
    XorBelowPow2(r, 0x1D, 5);
    XorDisjoint(32 * q, Xor(r, 0x1D), 5);
    XorAssociates(32 * q, r, 0x1D);
  }

  lemma {:induction false} ChainFrom0(i: int)
    requires 0 <= i < 4
    ensures ExpEntry(i + 1) == XTime(ExpEntry(i))
  {
    if i == 0 {
    } else if i == 1 {
    } else if i == 2 {
    } else if i == 3 {
    }
  }

  lemma {:induction false} ChainFrom4(i: int)
    requires 4 <= i < 8
    ensures ExpEntry(i + 1) == XTime(ExpEntry(i))
  {
    if i == 4 {
    } else if i == 5 {
    } else if i == 6 {
    } else if i == 7 {
      XTimeHighAt(128, 0, 0, 29);
    }
  }

  lemma {:induction false} ChainFrom8(i: int)
    requires 8 <= i < 12
    ensures ExpEntry(i + 1) == XTime(ExpEntry(i))
  {
    if i == 8 {
    } else if i == 9 {
    } else if i == 10 {
    } else if i == 11 {
      XTimeHighAt(232, 6, 16, 13);
    }
  }

  lemma {:induction false} ChainFrom12(i: int)
    requires 12 <= i < 16
    ensures ExpEntry(i + 1) == XTime(ExpEntry(i))
  {
    if i == 12 {
      XTimeHighAt(205, 4, 26, 7);
    } else if i == 13 {
      XTimeHighAt(135, 0, 14, 19);
    } else if i == 14 {
    } else if i == 15 {
    }
  }

  lemma {:induction false} ChainFrom16(i: int)
    requires 16 <= i < 20
    ensures ExpEntry(i + 1) == XTime(ExpEntry(i))
  {
    if i == 16 {
    } else if i == 17 {
      XTimeHighAt(152, 1, 16, 13);
    } else if i == 18 {
    } else if i == 19 {
    }
  }

  lemma {:induction false} ChainFrom20(i: int)
    requires 20 <= i < 24
    ensures ExpEntry(i + 1) == XTime(ExpEntry(i))
  {
    if i == 20 {
      XTimeHighAt(180, 3, 8, 21);
    } else if i == 21 {
    } else if i == 22 {
      XTimeHighAt(234, 6, 20, 9);
    } else if i == 23 {
      XTimeHighAt(201, 4, 18, 15);
    }
  }

  lemma {:induction false} ChainFrom24(i: int)
    requires 24 <= i < 28
    ensures ExpEntry(i + 1) == XTime(ExpEntry(i))
  {
    if i == 24 {
      XTimeHighAt(143, 0, 30, 3);
    } else if i == 25 {
    } else if i == 26 {
    } else if i == 27 {
    }
  }

  lemma {:induction false} ChainFrom28(i: int)
    requires 28 <= i < 32
    ensures ExpEntry(i + 1) == XTime(ExpEntry(i))
  {
    if i == 28 {
    } else if i == 29 {
    } else if i == 30 {
    } else if i == 31 {
      XTimeHighAt(192, 4, 0, 29);
    }
  }

  lemma {:induction false} ChainFrom32(i: int)
    requires 32 <= i < 36
    ensures ExpEntry(i + 1) == XTime(ExpEntry(i))
  {
    if i == 32 {
      XTimeHighAt(157, 1, 26, 7);
    } else if i == 33 {
    } else if i == 34 {
    } else if i == 35 {
      XTimeHighAt(156, 1, 24, 5);
    }
  }

  lemma {:induction false} ChainFrom36(i: int)
    requires 36 <= i < 40
    ensures ExpEntry(i + 1) == XTime(ExpEntry(i))
  {
    if i == 36 {
    } else if i == 37 {
    } else if i == 38 {
      XTimeHighAt(148, 1, 8, 21);
    } else if i == 39 {
    }
  }

  lemma {:induction false} ChainFrom40(i: int)
    requires 40 <= i < 44
    ensures ExpEntry(i + 1) == XTime(ExpEntry(i))
  {
    if i == 40 {
    } else if i == 41 {
      XTimeHighAt(212, 5, 8, 21);
    } else if i == 42 {
      XTimeHighAt(181, 3, 10, 23);
    } else if i == 43 {
    }
  }

  lemma {:induction false} ChainFrom44(i: int)
    requires 44 <= i < 48
    ensures ExpEntry(i + 1) == XTime(ExpEntry(i))
  {
    if i == 44 {
      XTimeHighAt(238, 6, 28, 1);
    } else if i == 45 {
      XTimeHighAt(193, 4, 2, 31);
    } else if i == 46 {
      XTimeHighAt(159, 1, 30, 3);
    } else if i == 47 {
    }
  }

  lemma {:induction false} ChainFrom48(i: int)
    requires 48 <= i < 52
    ensures ExpEntry(i + 1) == XTime(ExpEntry(i))
  {
    if i == 48 {
    } else if i == 49 {
      XTimeHighAt(140, 0, 24, 5);
    } else if i == 50 {
    } else if i == 51 {
    }
  }

  lemma {:induction false} ChainFrom52(i: int)
    requires 52 <= i < 56
    ensures ExpEntry(i + 1) == XTime(ExpEntry(i))
  {
    if i == 52 {
    } else if i == 53 {
    } else if i == 54 {
    } else if i == 55 {
      XTimeHighAt(160, 2, 0, 29);
    }
  }

  lemma {:induction false} ChainFrom56(i: int)
    requires 56 <= i < 60
    ensures ExpEntry(i + 1) == XTime(ExpEntry(i))
  {
    if i == 56 {
    } else if i == 57 {
      XTimeHighAt(186, 3, 20, 9);
    } else if i == 58 {
    } else if i == 59 {
      XTimeHighAt(210, 5, 4, 25);
    }
  }

  lemma {:induction false} ChainFrom60(i: int)
    requires 60 <= i < 64
    ensures ExpEntry(i + 1) == XTime(ExpEntry(i))
  {
    if i == 60 {
      XTimeHighAt(185, 3, 18, 15);
    } else if i == 61 {
    } else if i == 62 {
      XTimeHighAt(222, 5, 28, 1);
    } else if i == 63 {
      XTimeHighAt(161, 2, 2, 31);
    }
  }

  lemma {:induction false} ChainFrom64(i: int)
    requires 64 <= i < 68
    ensures ExpEntry(i + 1) == XTime(ExpEntry(i))
  {
    if i == 64 {
    } else if i == 65 {
      XTimeHighAt(190, 3, 28, 1);
    } else if i == 66 {
    } else if i == 67 {
      XTimeHighAt(194, 4, 4, 25);
    }
  }

  lemma {:induction false} ChainFrom68(i: int)
    requires 68 <= i < 72
    ensures ExpEntry(i + 1) == XTime(ExpEntry(i))
  {
    if i == 68 {
      XTimeHighAt(153, 1, 18, 15);
    } else if i == 69 {
    } else if i == 70 {
    } else if i == 71 {
      XTimeHighAt(188, 3, 24, 5);
    }
  }

  lemma {:induction false} ChainFrom72(i: int)
    requires 72 <= i < 76
    ensures ExpEntry(i + 1) == XTime(ExpEntry(i))
  {
    if i == 72 {
    } else if i == 73 {
      XTimeHighAt(202, 4, 20, 9);
    } else if i == 74 {
      XTimeHighAt(137, 0, 18, 15);
    } else if i == 75 {
    }
  }

  lemma {:induction false} ChainFrom76(i: int)
    requires 76 <= i < 80
    ensures ExpEntry(i + 1) == XTime(ExpEntry(i))
  {
    if i == 76 {
    } else if i == 77 {
    } else if i == 78 {
    } else if i == 79 {
      XTimeHighAt(240, 7, 0, 29);
    }
  }

  lemma {:induction false} ChainFrom80(i: int)
    requires 80 <= i < 84
    ensures ExpEntry(i + 1) == XTime(ExpEntry(i))
  {
    if i == 80 {
      XTimeHighAt(253, 7, 26, 7);
    } else if i == 81 {
      XTimeHighAt(231, 6, 14, 19);
    } else if i == 82 {
      XTimeHighAt(211, 5, 6, 27);
    } else if i == 83 {
      XTimeHighAt(187, 3, 22, 11);
    }
  }

  lemma {:induction false} ChainFrom84(i: int)
    requires 84 <= i < 88
    ensures ExpEntry(i + 1) == XTime(ExpEntry(i))
  {
    if i == 84 {
    } else if i == 85 {
      XTimeHighAt(214, 5, 12, 17);
    } else if i == 86 {
      XTimeHighAt(177, 3, 2, 31);
    } else if i == 87 {
    }
  }

  lemma {:induction false} ChainFrom88(i: int)
    requires 88 <= i < 92
    ensures ExpEntry(i + 1) == XTime(ExpEntry(i))
  {
    if i == 88 {
      XTimeHighAt(254, 7, 28, 1);
    } else if i == 89 {
      XTimeHighAt(225, 6, 2, 31);
    } else if i == 90 {
      XTimeHighAt(223, 5, 30, 3);
    } else if i == 91 {
      XTimeHighAt(163, 2, 6, 27);
    }
  }

  lemma {:induction false} ChainFrom92(i: int)
    requires 92 <= i < 96
    ensures ExpEntry(i + 1) == XTime(ExpEntry(i))
  {
    if i == 92 {
    } else if i == 93 {
      XTimeHighAt(182, 3, 12, 17);
    } else if i == 94 {
    } else if i == 95 {
      XTimeHighAt(226, 6, 4, 25);
    }
  }

  lemma {:induction false} ChainFrom96(i: int)
    requires 96 <= i < 100
    ensures ExpEntry(i + 1) == XTime(ExpEntry(i))
  {
    if i == 96 {
      XTimeHighAt(217, 5, 18, 15);
    } else if i == 97 {
      XTimeHighAt(175, 2, 30, 3);
    } else if i == 98 {
    } else if i == 99 {
      XTimeHighAt(134, 0, 12, 17);
    }
  }

  lemma {:induction false} ChainFrom100(i: int)
    requires 100 <= i < 104
    ensures ExpEntry(i + 1) == XTime(ExpEntry(i))
  {
    if i == 100 {
    } else if i == 101 {
    } else if i == 102 {
    } else if i == 103 {
      XTimeHighAt(136, 0, 16, 13);
    }
  }

  lemma {:induction false} ChainFrom104(i: int)
    requires 104 <= i < 108
    ensures ExpEntry(i + 1) == XTime(ExpEntry(i))
  {
    if i == 104 {
    } else if i == 105 {
    } else if i == 106 {
    } else if i == 107 {
    }
  }

  lemma {:induction false} ChainFrom108(i: int)
    requires 108 <= i < 112
    ensures ExpEntry(i + 1) == XTime(ExpEntry(i))
  {
    if i == 108 {
      XTimeHighAt(208, 5, 0, 29);
    } else if i == 109 {
      XTimeHighAt(189, 3, 26, 7);
    } else if i == 110 {
    } else if i == 111 {
      XTimeHighAt(206, 4, 28, 1);
    }
  }

  lemma {:induction false} ChainFrom112(i: int)
    requires 112 <= i < 116
    ensures ExpEntry(i + 1) == XTime(ExpEntry(i))
  {
    if i == 112 {
      XTimeHighAt(129, 0, 2, 31);
    } else if i == 113 {
    } else if i == 114 {
    } else if i == 115 {
    }
  }

  lemma {:induction false} ChainFrom116(i: int)
    requires 116 <= i < 120
    ensures ExpEntry(i + 1) == XTime(ExpEntry(i))
  {
    if i == 116 {
      XTimeHighAt(248, 7, 16, 13);
    } else if i == 117 {
      XTimeHighAt(237, 6, 26, 7);
    } else if i == 118 {
      XTimeHighAt(199, 4, 14, 19);
    } else if i == 119 {
      XTimeHighAt(147, 1, 6, 27);
    }
  }

  lemma {:induction false} ChainFrom120(i: int)
    requires 120 <= i < 124
    ensures ExpEntry(i + 1) == XTime(ExpEntry(i))
  {
    if i == 120 {
    } else if i == 121 {
    } else if i == 122 {
      XTimeHighAt(236, 6, 24, 5);
    } else if i == 123 {
      XTimeHighAt(197, 4, 10, 23);
    }
  }

  lemma {:induction false} ChainFrom124(i: int)
    requires 124 <= i < 128
    ensures ExpEntry(i + 1) == XTime(ExpEntry(i))
  {
    if i == 124 {
      XTimeHighAt(151, 1, 14, 19);
    } else if i == 125 {
    } else if i == 126 {
    } else if i == 127 {
      XTimeHighAt(204, 4, 24, 5);
    }
  }

  lemma {:induction false} ChainFrom128(i: int)
    requires 128 <= i < 132
    ensures ExpEntry(i + 1) == XTime(ExpEntry(i))
  {
    if i == 128 {
      XTimeHighAt(133, 0, 10, 23);
    } else if i == 129 {
    } else if i == 130 {
    } else if i == 131 {
    }
  }

  lemma {:induction false} ChainFrom132(i: int)
    requires 132 <= i < 136
    ensures ExpEntry(i + 1) == XTime(ExpEntry(i))
  {
    if i == 132 {
      XTimeHighAt(184, 3, 16, 13);
    } else if i == 133 {
    } else if i == 134 {
      XTimeHighAt(218, 5, 20, 9);
    } else if i == 135 {
      XTimeHighAt(169, 2, 18, 15);
    }
  }

  lemma {:induction false} ChainFrom136(i: int)
    requires 136 <= i < 140
    ensures ExpEntry(i + 1) == XTime(ExpEntry(i))
  {
    if i == 136 {
    } else if i == 137 {
      XTimeHighAt(158, 1, 28, 1);
    } else if i == 138 {
    } else if i == 139 {
    }
  }

  lemma {:induction false} ChainFrom140(i: int)
    requires 140 <= i < 144
    ensures ExpEntry(i + 1) == XTime(ExpEntry(i))
  {
    if i == 140 {
      XTimeHighAt(132, 0, 8, 21);
    } else if i == 141 {
    } else if i == 142 {
    } else if i == 143 {
    }
  }

  lemma {:induction false} ChainFrom144(i: int)
    requires 144 <= i < 148
    ensures ExpEntry(i + 1) == XTime(ExpEntry(i))
  {
    if i == 144 {
      XTimeHighAt(168, 2, 16, 13);
    } else if i == 145 {
    } else if i == 146 {
      XTimeHighAt(154, 1, 20, 9);
    } else if i == 147 {
    }
  }

  lemma {:induction false} ChainFrom148(i: int)
    requires 148 <= i < 152
    ensures ExpEntry(i + 1) == XTime(ExpEntry(i))
  {
    if i == 148 {
    } else if i == 149 {
      XTimeHighAt(164, 2, 8, 21);
    } else if i == 150 {
    } else if i == 151 {
      XTimeHighAt(170, 2, 20, 9);
    }
  }

  lemma {:induction false} ChainFrom152(i: int)
    requires 152 <= i < 156
    ensures ExpEntry(i + 1) == XTime(ExpEntry(i))
  {
    if i == 152 {
    } else if i == 153 {
      XTimeHighAt(146, 1, 4, 25);
    } else if i == 154 {
    } else if i == 155 {
    }
  }

  lemma {:induction false} ChainFrom156(i: int)
    requires 156 <= i < 160
    ensures ExpEntry(i + 1) == XTime(ExpEntry(i))
  {
    if i == 156 {
      XTimeHighAt(228, 6, 8, 21);
    } else if i == 157 {
      XTimeHighAt(213, 5, 10, 23);
    } else if i == 158 {
      XTimeHighAt(183, 3, 14, 19);
    } else if i == 159 {
    }
  }

  lemma {:induction false} ChainFrom160(i: int)
    requires 160 <= i < 164
    ensures ExpEntry(i + 1) == XTime(ExpEntry(i))
  {
    if i == 160 {
      XTimeHighAt(230, 6, 12, 17);
    } else if i == 161 {
      XTimeHighAt(209, 5, 2, 31);
    } else if i == 162 {
      XTimeHighAt(191, 3, 30, 3);
    } else if i == 163 {
    }
  }

  lemma {:induction false} ChainFrom164(i: int)
    requires 164 <= i < 168
    ensures ExpEntry(i + 1) == XTime(ExpEntry(i))
  {
    if i == 164 {
      XTimeHighAt(198, 4, 12, 17);
    } else if i == 165 {
      XTimeHighAt(145, 1, 2, 31);
    } else if i == 166 {
    } else if i == 167 {
    }
  }

  lemma {:induction false} ChainFrom168(i: int)
    requires 168 <= i < 172
    ensures ExpEntry(i + 1) == XTime(ExpEntry(i))
  {
    if i == 168 {
      XTimeHighAt(252, 7, 24, 5);
    } else if i == 169 {
      XTimeHighAt(229, 6, 10, 23);
    } else if i == 170 {
      XTimeHighAt(215, 5, 14, 19);
    } else if i == 171 {
      XTimeHighAt(179, 3, 6, 27);
    }
  }

  lemma {:induction false} ChainFrom172(i: int)
    requires 172 <= i < 176
    ensures ExpEntry(i + 1) == XTime(ExpEntry(i))
  {
    if i == 172 {
    } else if i == 173 {
      XTimeHighAt(246, 7, 12, 17);
    } else if i == 174 {
      XTimeHighAt(241, 7, 2, 31);
    } else if i == 175 {
      XTimeHighAt(255, 7, 30, 3);
    }
  }

  lemma {:induction false} ChainFrom176(i: int)
    requires 176 <= i < 180
    ensures ExpEntry(i + 1) == XTime(ExpEntry(i))
  {
    if i == 176 {
      XTimeHighAt(227, 6, 6, 27);
    } else if i == 177 {
      XTimeHighAt(219, 5, 22, 11);
    } else if i == 178 {
      XTimeHighAt(171, 2, 22, 11);
    } else if i == 179 {
    }
  }

  lemma {:induction false} ChainFrom180(i: int)
    requires 180 <= i < 184
    ensures ExpEntry(i + 1) == XTime(ExpEntry(i))
  {
    if i == 180 {
      XTimeHighAt(150, 1, 12, 17);
    } else if i == 181 {
    } else if i == 182 {
    } else if i == 183 {
      XTimeHighAt(196, 4, 8, 21);
    }
  }

  lemma {:induction false} ChainFrom184(i: int)
    requires 184 <= i < 188
    ensures ExpEntry(i + 1) == XTime(ExpEntry(i))
  {
    if i == 184 {
      XTimeHighAt(149, 1, 10, 23);
    } else if i == 185 {
    } else if i == 186 {
    } else if i == 187 {
      XTimeHighAt(220, 5, 24, 5);
    }
  }

  lemma {:induction false} ChainFrom188(i: int)
    requires 188 <= i < 192
    ensures ExpEntry(i + 1) == XTime(ExpEntry(i))
  {
    if i == 188 {
      XTimeHighAt(165, 2, 10, 23);
    } else if i == 189 {
    } else if i == 190 {
      XTimeHighAt(174, 2, 28, 1);
    } else if i == 191 {
    }
  }

  lemma {:induction false} ChainFrom192(i: int)
    requires 192 <= i < 196
    ensures ExpEntry(i + 1) == XTime(ExpEntry(i))
  {
    if i == 192 {
      XTimeHighAt(130, 0, 4, 25);
    } else if i == 193 {
    } else if i == 194 {
    } else if i == 195 {
    }
  }

  lemma {:induction false} ChainFrom196(i: int)
    requires 196 <= i < 200
    ensures ExpEntry(i + 1) == XTime(ExpEntry(i))
  {
    if i == 196 {
      XTimeHighAt(200, 4, 16, 13);
    } else if i == 197 {
      XTimeHighAt(141, 0, 26, 7);
    } else if i == 198 {
    } else if i == 199 {
    }
  }

  lemma {:induction false} ChainFrom200(i: int)
    requires 200 <= i < 204
    ensures ExpEntry(i + 1) == XTime(ExpEntry(i))
  {
    if i == 200 {
    } else if i == 201 {
    } else if i == 202 {
    } else if i == 203 {
      XTimeHighAt(224, 6, 0, 29);
    }
  }

  lemma {:induction false} ChainFrom204(i: int)
    requires 204 <= i < 208
    ensures ExpEntry(i + 1) == XTime(ExpEntry(i))
  {
    if i == 204 {
      XTimeHighAt(221, 5, 26, 7);
    } else if i == 205 {
      XTimeHighAt(167, 2, 14, 19);
    } else if i == 206 {
    } else if i == 207 {
      XTimeHighAt(166, 2, 12, 17);
    }
  }

  lemma {:induction false} ChainFrom208(i: int)
    requires 208 <= i < 212
    ensures ExpEntry(i + 1) == XTime(ExpEntry(i))
  {
    if i == 208 {
    } else if i == 209 {
      XTimeHighAt(162, 2, 4, 25);
    } else if i == 210 {
    } else if i == 211 {
      XTimeHighAt(178, 3, 4, 25);
    }
  }

  lemma {:induction false} ChainFrom212(i: int)
    requires 212 <= i < 216
    ensures ExpEntry(i + 1) == XTime(ExpEntry(i))
  {
    if i == 212 {
    } else if i == 213 {
      XTimeHighAt(242, 7, 4, 25);
    } else if i == 214 {
      XTimeHighAt(249, 7, 18, 15);
    } else if i == 215 {
      XTimeHighAt(239, 6, 30, 3);
    }
  }

  lemma {:induction false} ChainFrom216(i: int)
    requires 216 <= i < 220
    ensures ExpEntry(i + 1) == XTime(ExpEntry(i))
  {
    if i == 216 {
      XTimeHighAt(195, 4, 6, 27);
    } else if i == 217 {
      XTimeHighAt(155, 1, 22, 11);
    } else if i == 218 {
    } else if i == 219 {
    }
  }

  lemma {:induction false} ChainFrom220(i: int)
    requires 220 <= i < 224
    ensures ExpEntry(i + 1) == XTime(ExpEntry(i))
  {
    if i == 220 {
      XTimeHighAt(172, 2, 24, 5);
    } else if i == 221 {
    } else if i == 222 {
      XTimeHighAt(138, 0, 20, 9);
    } else if i == 223 {
    }
  }

  lemma {:induction false} ChainFrom224(i: int)
    requires 224 <= i < 228
    ensures ExpEntry(i + 1) == XTime(ExpEntry(i))
  {
    if i == 224 {
    } else if i == 225 {
    } else if i == 226 {
    } else if i == 227 {
      XTimeHighAt(144, 1, 0, 29);
    }
  }

  lemma {:induction false} ChainFrom228(i: int)
    requires 228 <= i < 232
    ensures ExpEntry(i + 1) == XTime(ExpEntry(i))
  {
    if i == 228 {
    } else if i == 229 {
    } else if i == 230 {
      XTimeHighAt(244, 7, 8, 21);
    } else if i == 231 {
      XTimeHighAt(245, 7, 10, 23);
    }
  }

  lemma {:induction false} ChainFrom232(i: int)
    requires 232 <= i < 236
    ensures ExpEntry(i + 1) == XTime(ExpEntry(i))
  {
    if i == 232 {
      XTimeHighAt(247, 7, 14, 19);
    } else if i == 233 {
      XTimeHighAt(243, 7, 6, 27);
    } else if i == 234 {
      XTimeHighAt(251, 7, 22, 11);
    } else if i == 235 {
      XTimeHighAt(235, 6, 22, 11);
    }
  }

  lemma {:induction false} ChainFrom236(i: int)
    requires 236 <= i < 240
    ensures ExpEntry(i + 1) == XTime(ExpEntry(i))
  {
    if i == 236 {
      XTimeHighAt(203, 4, 22, 11);
    } else if i == 237 {
      XTimeHighAt(139, 0, 22, 11);
    } else if i == 238 {
    } else if i == 239 {
    }
  }

  lemma {:induction false} ChainFrom240(i: int)
    requires 240 <= i < 244
    ensures ExpEntry(i + 1) == XTime(ExpEntry(i))
  {
    if i == 240 {
    } else if i == 241 {
    } else if i == 242 {
      XTimeHighAt(176, 3, 0, 29);
    } else if i == 243 {
    }
  }

  lemma {:induction false} ChainFrom244(i: int)
    requires 244 <= i < 248
    ensures ExpEntry(i + 1) == XTime(ExpEntry(i))
  {
    if i == 244 {
      XTimeHighAt(250, 7, 20, 9);
    } else if i == 245 {
      XTimeHighAt(233, 6, 18, 15);
    } else if i == 246 {
      XTimeHighAt(207, 4, 30, 3);
    } else if i == 247 {
      XTimeHighAt(131, 0, 6, 27);
    }
  }

  lemma {:induction false} ChainFrom248(i: int)
    requires 248 <= i < 252
    ensures ExpEntry(i + 1) == XTime(ExpEntry(i))
  {
    if i == 248 {
    } else if i == 249 {
    } else if i == 250 {
    } else if i == 251 {
      XTimeHighAt(216, 5, 16, 13);
    }
  }

  lemma {:induction false} ChainFrom252(i: int)
    requires 252 <= i < 255
    ensures ExpEntry(i + 1) == XTime(ExpEntry(i))
  {
    if i == 252 {
      XTimeHighAt(173, 2, 26, 7);
    } else if i == 253 {
    } else if i == 254 {
      XTimeHighAt(142, 0, 28, 1);
    }
  }

  lemma {:induction false} Chain(i: int)
    requires 0 <= i < 255
    ensures ExpEntry(i + 1) == XTime(ExpEntry(i))
  {
    if i < 4 {
      ChainFrom0(i);
    } else if i < 8 {
      ChainFrom4(i);
    } else if i < 12 {
      ChainFrom8(i);
    } else if i < 16 {
      ChainFrom12(i);
    } else if i < 20 {
      ChainFrom16(i);
    } else if i < 24 {
      ChainFrom20(i);
    } else if i < 28 {
      ChainFrom24(i);
    } else if i < 32 {
      ChainFrom28(i);
    } else if i < 36 {
      ChainFrom32(i);
    } else if i < 40 {
      ChainFrom36(i);
    } else if i < 44 {
      ChainFrom40(i);
    } else if i < 48 {
      ChainFrom44(i);
    } else if i < 52 {
      ChainFrom48(i);
    } else if i < 56 {
      ChainFrom52(i);
    } else if i < 60 {
      ChainFrom56(i);
    } else if i < 64 {
      ChainFrom60(i);
    } else if i < 68 {
      ChainFrom64(i);
    } else if i < 72 {
      ChainFrom68(i);
    } else if i < 76 {
      ChainFrom72(i);
    } else if i < 80 {
      ChainFrom76(i);
    } else if i < 84 {
      ChainFrom80(i);
    } else if i < 88 {
      ChainFrom84(i);
    } else if i < 92 {
      ChainFrom88(i);
    } else if i < 96 {
      ChainFrom92(i);
    } else if i < 100 {
      ChainFrom96(i);
    } else if i < 104 {
      ChainFrom100(i);
    } else if i < 108 {
      ChainFrom104(i);
    } else if i < 112 {
      ChainFrom108(i);
    } else if i < 116 {
      ChainFrom112(i);
    } else if i < 120 {
      ChainFrom116(i);
    } else if i < 124 {
      ChainFrom120(i);
    } else if i < 128 {
      ChainFrom124(i);
    } else if i < 132 {
      ChainFrom128(i);
    } else if i < 136 {
      ChainFrom132(i);
    } else if i < 140 {
      ChainFrom136(i);
    } else if i < 144 {
      ChainFrom140(i);
    } else if i < 148 {
      ChainFrom144(i);
    } else if i < 152 {
      ChainFrom148(i);
    } else if i < 156 {
      ChainFrom152(i);
    } else if i < 160 {
      ChainFrom156(i);
    } else if i < 164 {
      ChainFrom160(i);
    } else if i < 168 {
      ChainFrom164(i);
    } else if i < 172 {
      ChainFrom168(i);
    } else if i < 176 {
      ChainFrom172(i);
    } else if i < 180 {
      ChainFrom176(i);
    } else if i < 184 {
      ChainFrom180(i);
    } else if i < 188 {
      ChainFrom184(i);
    } else if i < 192 {
      ChainFrom188(i);
    } else if i < 196 {
      ChainFrom192(i);
    } else if i < 200 {
      ChainFrom196(i);
    } else if i < 204 {
      ChainFrom200(i);
    } else if i < 208 {
      ChainFrom204(i);
    } else if i < 212 {
      ChainFrom208(i);
    } else if i < 216 {
      ChainFrom212(i);
    } else if i < 220 {
      ChainFrom216(i);
    } else if i < 224 {
      ChainFrom220(i);
    } else if i < 228 {
      ChainFrom224(i);
    } else if i < 232 {
      ChainFrom228(i);
    } else if i < 236 {
      ChainFrom232(i);
    } else if i < 240 {
      ChainFrom236(i);
    } else if i < 244 {
      ChainFrom240(i);
    } else if i < 248 {
      ChainFrom244(i);
    } else if i < 252 {
      ChainFrom248(i);
    } else if i < 255 {
      ChainFrom252(i);
    }
  }

  lemma {:induction false} LogInvertsExpFrom0(i: int)
    requires 0 <= i < 32
    ensures LogEntry(ExpEntry(i)) == i
  {
  }

  lemma {:induction false} ExpInvertsLogFrom0(v: int)
    requires 1 <= v < 32
    ensures ExpEntry(LogEntry(v)) == v
  {
  }

  lemma {:induction false} LogInvertsExpFrom32(i: int)
    requires 32 <= i < 64
    ensures LogEntry(ExpEntry(i)) == i
  {
  }

  lemma {:induction false} ExpInvertsLogFrom32(v: int)
    requires 32 <= v < 64
    ensures ExpEntry(LogEntry(v)) == v
  {
  }

  lemma {:induction false} LogInvertsExpFrom64(i: int)
    requires 64 <= i < 96
    ensures LogEntry(ExpEntry(i)) == i
  {
  }

  lemma {:induction false} ExpInvertsLogFrom64(v: int)
    requires 64 <= v < 96
    ensures ExpEntry(LogEntry(v)) == v
  {
  }

  lemma {:induction false} LogInvertsExpFrom96(i: int)
    requires 96 <= i < 128
    ensures LogEntry(ExpEntry(i)) == i
  {
  }

  lemma {:induction false} ExpInvertsLogFrom96(v: int)
    requires 96 <= v < 128
    ensures ExpEntry(LogEntry(v)) == v
  {
  }

  lemma {:induction false} LogInvertsExpFrom128(i: int)
    requires 128 <= i < 160
    ensures LogEntry(ExpEntry(i)) == i
  {
  }

  lemma {:induction false} ExpInvertsLogFrom128(v: int)
    requires 128 <= v < 160
    ensures ExpEntry(LogEntry(v)) == v
  {
  }

  lemma {:induction false} LogInvertsExpFrom160(i: int)
    requires 160 <= i < 192
    ensures LogEntry(ExpEntry(i)) == i
  {
  }

  lemma {:induction false} ExpInvertsLogFrom160(v: int)
    requires 160 <= v < 192
    ensures ExpEntry(LogEntry(v)) == v
  {
  }

  lemma {:induction false} LogInvertsExpFrom192(i: int)
    requires 192 <= i < 224
    ensures LogEntry(ExpEntry(i)) == i
  {
  }

  lemma {:induction false} ExpInvertsLogFrom192(v: int)
    requires 192 <= v < 224
    ensures ExpEntry(LogEntry(v)) == v
  {
  }

  lemma {:induction false} LogInvertsExpFrom224(i: int)
    requires 224 <= i < 255
    ensures LogEntry(ExpEntry(i)) == i
  {
  }

  lemma {:induction false} ExpInvertsLogFrom224(v: int)
    requires 224 <= v < 256
    ensures ExpEntry(LogEntry(v)) == v
  {
  }

  /** The field QR codes use: GenericGF.QR_CODE_FIELD_256. */
  function QrCodeField(): Field
  {
    Field(seq(256, i requires 0 <= i < 256 => ExpEntry(i)), seq(256, v requires 0 <= v < 256 => LogEntry(v)))
  }

  /** The QR code field's tables satisfy everything the rest of the model assumes of a field. */
  lemma {:induction false} QrCodeFieldValid()
    ensures Valid(QrCodeField())
  {
    var f := QrCodeField();
    forall i | 0 <= i < 255
      ensures ExpChainAt(f, i)
    {
      Chain(i);
    }
    forall i | 0 <= i < 255
      ensures LogOfExpAt(f, i)
    {
      LogInvertsExp(i);
    }
    forall v | 0 < v < 256
      ensures ExpOfLogAt(f, v)
    {
      ExpInvertsLog(v);
    }
  }

  lemma {:induction false} LogInvertsExp(i: int)
    requires 0 <= i < 255
    ensures LogEntry(ExpEntry(i)) == i
  {
    if i < 32 {
      LogInvertsExpFrom0(i);
    } else if i < 64 {
      LogInvertsExpFrom32(i);
    } else if i < 96 {
      LogInvertsExpFrom64(i);
    } else if i < 128 {
      LogInvertsExpFrom96(i);
    } else if i < 160 {
      LogInvertsExpFrom128(i);
    } else if i < 192 {
      LogInvertsExpFrom160(i);
    } else if i < 224 {
      LogInvertsExpFrom192(i);
    } else if i < 255 {
      LogInvertsExpFrom224(i);
    }
  }

  lemma {:induction false} ExpInvertsLog(v: int)
    requires 0 < v < 256
    ensures ExpEntry(LogEntry(v)) == v
  {
    if v < 32 {
      ExpInvertsLogFrom0(v);
    } else if v < 64 {
      ExpInvertsLogFrom32(v);
    } else if v < 96 {
      ExpInvertsLogFrom64(v);
    } else if v < 128 {
      ExpInvertsLogFrom96(v);
    } else if v < 160 {
      ExpInvertsLogFrom128(v);
    } else if v < 192 {
      ExpInvertsLogFrom160(v);
    } else if v < 224 {
      ExpInvertsLogFrom192(v);
    } else if v < 256 {
      ExpInvertsLogFrom224(v);
    }
  }
}
